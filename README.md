# Advent of Code 2024 puzzle solutions, modelled in Dafny

This project models the Rust solutions of the joedane/aoc2024 repository and proves properties of them. The model covers one Dafny module per source file, plus three shared modules:

- `Utils` is the shared grid layer of `src/utils.rs`. It covers coordinates, turning and stepping, the row-major `BasicGrid` and its queries, and the row-major iterator.
- `Text` holds the string and number helpers the parsers use: unsigned `from_str`, `to_string`, `ilog10`, `str::find`, `split`, `split_whitespace` and `trim`.
- `Wrappers` holds Rust's `Option` and `Result`.
- `Day1` to `Day20` model the puzzle files `d1` to `d20`. `d8` is absent; see "Left out".

Each puzzle keeps the form of its source:
- pure code becomes functions and lemmas;
- vectors, buffers or grids changed in place become methods over arrays or classes;
- each such method is proved against a function that states what it computes.

Panics are modelled in one of two ways:
- A panic in a helper whose callers must avoid it becomes a precondition.
- A panic on input that a parser or driver accepts becomes an error value or `None`.

Machine integers are unbounded unless the code depends on their width. Where it does, the width is written out: usize registers in `d17`, `u16::MAX` gaps in `d9`, `i64` and `u64` conversions in `d13`, and `i32` conversion in `d2`.

Loops the source does not bound take a `fuel` argument. Running out of fuel is a separate outcome. These loops are `d5` reordering, the `d6` walks, `d17` `run_to_halt` and the part 2 search built on it, the round loop of `d18` `shortest_path`, `d19` `try_match` and the design count built on it, and `d20` `trace_path` and its walk.

## Model

| member | source | states |
|---|---|---|
| Utils.InDir | src/utils.rs:41-72 | the neighbour one step along the direction; None exactly when stepping Up from row 0 or Left from column 0 |
| Utils.TurnRight | src/utils.rs:84-91 | a clockwise quarter turn: the step (dr, dc) becomes (dc, -dr) |
| Utils.TurnLeft | src/utils.rs:84-91 | the inverse of turn_right: turning right afterwards gives the original direction |
| Utils.TurnProperties | src/utils.rs:84-91 | two right turns reverse the step, four bring the direction back, left undoes right |
| Utils.AsAsciiByte | src/utils.rs:93-100 | a direction is drawn as an arrow, never as a wall '#' or an open cell '.' |
| Utils.AsAsciiByteInjective | src/utils.rs:93-100 | distinct directions are drawn with distinct arrows |
| Utils.AheadOneIsInDir | src/utils.rs:41-72 | one step ahead by the grid's reference arithmetic is in_dir |
| Utils.AdjacentDirs | src/utils.rs:41-72 | two cells are orthogonal neighbours exactly when one is in_dir of the other for some direction |
| Utils.IndexBelow | src/utils.rs:167-169 | the row-major index of an in-bounds cell is below width * height, and so is the end of its row |
| Utils.DivModIndex | src/utils.rs:163-169 | dividing the row-major index by the width gives back the row, the remainder the column |
| Utils.IndexInjective | src/utils.rs:167-169 | two cells inside the width with the same row-major index are the same cell |
| Utils.Grid.IdxToPos | src/utils.rs:163-165 | idx_to_pos gives a cell in column range whose row-major index is i, inside the grid when i is |
| Utils.Grid.PosToIdx | src/utils.rs:167-169 | pos_to_idx of an in-bounds cell of a well-formed grid addresses its buffer |
| Utils.Grid.PosIdxRoundTrip | src/utils.rs:163-169 | idx_to_pos undoes pos_to_idx for every column inside the width |
| Utils.Grid.NextPos | src/utils.rs:171-178 | a neighbour it returns is in_dir; from an in-bounds cell it returns one exactly when in_dir stays inside the grid |
| Utils.Grid.Get | src/utils.rs:224-233 | from an in-bounds cell: the value cnt cells along the direction when that cell is inside the grid, None otherwise |
| Utils.Grid.GetUp | src/utils.rs:228 | the value cnt rows above, when the grid has that row |
| Utils.Grid.GetDown | src/utils.rs:229 | the value cnt rows below, when the grid has that row |
| Utils.Grid.GetLeft | src/utils.rs:230 | the value cnt columns to the left, when the row has that column |
| Utils.Grid.GetRight | src/utils.rs:231 | the value cnt columns to the right, when the row has that column |
| Utils.Grid.Set | src/utils.rs:287-291 | index_mut as a value: the cell now holds v, the size is kept and every other in-bounds cell is unchanged |
| Utils.UpIndex | src/utils.rs:228 | subtracting cnt widths from the index of a cell at least cnt rows down gives the index of the cell cnt rows up |
| Utils.DownIndex | src/utils.rs:229 | adding cnt widths gives the index of the cell cnt rows down, still inside the buffer |
| Utils.FirstIndex | src/utils.rs:212-217 | `position`: None exactly when the value is absent, otherwise an index holding it with no earlier occurrence |
| Utils.Find | src/utils.rs:212-217 | None exactly when no cell holds val; otherwise a cell holding val with no occurrence earlier in row-major order |
| Utils.Matching | src/utils.rs:147-162 | the filter of enumerate: exactly the indices whose value satisfies pred, strictly increasing |
| Utils.FindWith | src/utils.rs:147-162 | every returned cell satisfies pred and is in the grid, the cells come in increasing row-major order, and every satisfying cell is returned |
| Utils.PositionsComplete | src/utils.rs:147-162 | every matching index collected turns into a returned position |
| Utils.FindWithFirst | src/utils.rs:147-217 | with an equality predicate, the first cell find_with returns is the cell find returns |
| Utils.Convert | src/utils.rs:131-136 | the converted bytes of one line, one value per byte, in order |
| Utils.FlattenLayout | src/utils.rs:126-143 | pushing the converted bytes of equally wide lines puts byte c of line r at row-major index r * w + c |
| Utils.NewLayout | src/utils.rs:126-143 | the grid built from equally wide lines is well formed and holds at (r, c) the converted byte c of line r |
| Utils.BasicGrid.New | src/utils.rs:126-143 | new: a fresh buffer holding the flattened converted lines, width of the first line, height the number of lines |
| Utils.BasicGrid.Clone | src/utils.rs:109-120 | clone: a fresh buffer with the same contents, width and height |
| Utils.BasicGrid.Set | src/utils.rs:287-291 | index_mut: the buffer now holds the grid with that one cell overwritten |
| Utils.BasicGrid.Swap | src/bin/d15.rs:115 | swap exchanges the contents of two cells and keeps the multiset of cells |
| Utils.ProducedContents | src/utils.rs:302-317 | the iterator has yielded exactly the positions before (r, c), including column width at the end of every earlier row |
| Utils.ProducedOrdered | src/utils.rs:302-317 | the yielded positions are strictly increasing in row-major order, so none repeats |
| Utils.GridIterator.constructor | src/utils.rs:320-326 | row_major_iter starts at row 0, column 0, having yielded nothing |
| Utils.GridIterator.Next | src/utils.rs:302-317 | next yields the current position and advances; it ends exactly at column width of the last row, having yielded every position of the iteration |
| Text.DigitValue | src/bin/d17.rs:89 | the value of an ASCII digit is below 10 |
| Text.DigitChar | src/bin/d11.rs:8 | the digit character of a value below 10 reads back as that value |
| Text.Pow10 | src/bin/d7.rs:38 | `10_u64.pow(k)` is at least 1 |
| Text.DecimalValueBelow | src/bin/d7.rs:35-38 | a string of k digits denotes less than 10^k |
| Text.DecimalValueAppend | src/bin/d11.rs:8-12 | the value of s + t is the value of s times 10^|t| plus the value of t |
| Text.ParseUnsigned | src/bin/d7.rs:60-68 | unsigned `parse`: a result is at most the type's maximum; a non-empty digit string in range parses to its value, one out of range fails |
| Text.ParseAll | src/bin/d7.rs:64-71 | collecting the parses of every word succeeds exactly when each word parses, giving their values in order |
| Text.Digits | src/bin/d11.rs:8 | to_string: at least one digit, denoting n, without a leading zero for n > 0 |
| Text.Ilog10 | src/bin/d11.rs:7 | ilog10: the k with 10^k <= n < 10^(k+1) |
| Text.DigitsLength | src/bin/d11.rs:7-8 | a positive number has ilog10 + 1 digits |
| Text.DigitsRoundTrip | src/bin/d11.rs:8-12 | parsing what to_string printed gives the number back |
| Text.Find | src/bin/d17.rs:32-36 | str::find: a match lies wholly inside the string |
| Text.FindSpec | src/bin/d17.rs:32-36 | str::find: the first position where the pattern occurs; None exactly when it occurs nowhere |
| Text.OccursShift | src/d3.rs:38 | occurrences after position 0 are those of the string without its first character, moved by one |
| Text.FindChar | src/bin/d7.rs:59 | finding one character: None exactly when it is absent, else its first position |
| Text.Split | src/bin/d17.rs:50-53 | str::split on a character: pieces without the separator that join back to the string |
| Text.SplitUnique | src/bin/d17.rs:50-53 | pieces without the separator that join to the string are the ones split gives back |
| Text.Word | src/bin/d7.rs:64-65 | the leading run of non-whitespace, ended by whitespace or the end |
| Text.AsciiIsWhitespace | src/bin/d11.rs:27 | every separator of split_ascii_whitespace is whitespace to char::is_whitespace, and the only ASCII whitespace it does not split at is the vertical tab |
| Text.SplitWhitespace | src/bin/d7.rs:64-65 | split_whitespace (Unicode White_Space) or split_ascii_whitespace (space, tab, newline, form feed, carriage return): non-empty pieces without whitespace |
| Text.SplitWhitespaceSeparated | src/bin/d7.rs:64-65 | the pieces lie in the string in order, each preceded by whitespace (except at the start) and followed by whitespace or the end, with only whitespace after the last |
| Text.SeparatedSkip | src/bin/d7.rs:64-65 | a leading whitespace character does not change how a string divides into whitespace-separated pieces |
| Text.WordOf | src/bin/d7.rs:64-65 | a non-empty prefix without whitespace that is followed by whitespace or the end is the leading word |
| Text.SeparatedWord | src/bin/d7.rs:64-65 | a string starting with a non-whitespace character and separated into pieces begins with its first piece as the leading word, and the rest separates into the other pieces |
| Text.SplitWhitespaceUnique | src/bin/d7.rs:64-65 | the maximal runs are the only whitespace-separated non-empty pieces without whitespace that lay out the string, so the split is determined |
| Text.SplitWhitespaceKeeps | src/bin/d7.rs:64-65 | splitting at whitespace keeps every non-whitespace character, in order |
| Text.RemoveWhitespaceAppend | src/bin/d7.rs:64-65 | removing whitespace distributes over concatenation |
| Text.NoWhitespaceKept | src/bin/d7.rs:64-65 | a string without whitespace is kept whole |
| Text.LeadingWhitespace | src/bin/d7.rs:86 | where the leading whitespace run ends: at the end of the string or at a non-whitespace character |
| Text.LeadingWhitespaceRun | src/bin/d7.rs:86 | every character before that point is whitespace |
| Text.TrailingWhitespace | src/bin/d7.rs:86 | where the trailing whitespace run starts |
| Text.Trim | src/bin/d7.rs:86 | trim drops exactly the whitespace runs at both ends |
| Day1.Sort | src/bin/d1.rs:14-15 | `sort` returns the list in ascending order with the same elements |
| Day1.Insert | src/bin/d1.rs:14-15 | inserting into a sorted list keeps it sorted and adds exactly the new element |
| Day1.SortedUnique | src/bin/d1.rs:14-15 | two sorted lists with the same elements are the same list, so the sorted list depends only on the elements |
| Day1.Part1 | src/bin/d1.rs:13-26 | None (the unwrap of reduce panics) exactly when either list is empty |
| Day1.Part1IgnoresOrder | src/bin/d1.rs:13-26 | part 1 depends only on the multisets of ids in the two lists |
| Day1.Part1Distance | src/bin/d1.rs:13-26 | part 1 is symmetric in the two lists and is 0 for two non-empty lists with the same ids |
| Day1.SumDistancesSymmetric | src/bin/d1.rs:17-23 | the summed distances of the zipped pairs do not depend on which list is left |
| Day1.SumDistancesSelf | src/bin/d1.rs:17-23 | a list paired with itself is at distance 0 |
| Day1.Counts | src/bin/d1.rs:29-32 | the count map has a key exactly for each id of l2, holding the number of times it occurs |
| Day1.SimilarityFromCounts | src/bin/d1.rs:33-39 | summing each id times its entry in the count map (0 when absent) is the similarity score |
| Day1.Part2 | src/bin/d1.rs:28-40 | part2 returns the similarity score: every id of l1 times its number of occurrences in l2 |
| Day1.SimilarityOfOne | src/bin/d1.rs:37 | the similarity of a list against one id x is x times the occurrences of x |
| Day1.SimilarityAppendRight | src/bin/d1.rs:37 | the similarity is additive in the right list |
| Day1.SimilaritySymmetric | src/bin/d1.rs:28-40 | the similarity score is the same with the two lists exchanged |
| Day1.SimilarityNoIds | src/bin/d1.rs:37 | the similarity against an empty list is 0 |
| Day2.AllWindowsRiseMeans | src/d2.rs:37-40 | the rising windows test holds exactly when every step rises by 1 to 3 |
| Day2.AllWindowsFallMeans | src/d2.rs:43-46 | the falling windows test holds exactly when every step falls by 1 to 3 |
| Day2.IsSafe1Means | src/d2.rs:29-48 | Part1::is_safe holds exactly when the report rises all the way or falls all the way by 1 to 3 per step |
| Day2.IsSafe1 | src/d2.rs:29-48 | Part1::is_safe on a report of two levels or more: the first two levels fix the direction and must differ by 1 to 3, every later window must keep to it (no ensures; its meaning is IsSafe1Means) |
| Day2.Without | src/d2.rs:60-63 | the report without level i: one level shorter, levels before i kept, later ones shifted down |
| Day2.CopyFromSlice | src/d2.rs:62-63 | copy_from_slice overwrites exactly the target range with src and leaves the rest of the buffer |
| Day2.IsSafe2 | src/d2.rs:56-70 | Part2::is_safe: None (the panic of Part1::is_safe) on fewer than two levels, or on a two-level report that is unsafe, since v then has one level; otherwise whether the report is safe as it is or once some single level is removed |
| Day2.Safe1Fixed | src/d2.rs:29-32 | Part1::is_safe with the length check corrected: true exactly when the report rises or falls by 1 to 3 per step, so a report of fewer than two levels is safe |
| Day2.Safe2Fixed | src/d2.rs:56-70 | the corrected part 2 test: true exactly when the report is safe or safe without one level; every report of at most two levels is |
| Day2.Safe2AsWritten | src/d2.rs:56-70 | where Part2::is_safe answers it agrees with the corrected test, and it panics exactly on fewer than two levels or on an unsafe report of two |
| Day2.ShortReportsPanic | src/d2.rs:30-31 | the reports `1 5` and `7` make Part2::is_safe panic although the corrected test calls them safe |
| Day2.Part2Accepts | src/d2.rs:56-59 | a report safe for part 1 stays safe without its first level |
| Day2.CountSafe1 | src/d2.rs:16-26 | Part1::run: None (the panic) exactly when some report has fewer than two levels; otherwise at most the number of reports |
| Day2.CountSafe1All | src/d2.rs:16-26 | part 1 counts every report exactly when every report has two levels or more and rises or falls by 1 to 3 per step |
| Day2.CountSafe2 | src/d2.rs:74-84 | Part2::run: None exactly when Part2::is_safe panics on some report; otherwise at most the number of reports |
| Day2.CountFixed | src/d2.rs:74-84 | the run over the corrected test counts at most the number of reports |
| Day2.CountSafe2Fixed | src/d2.rs:74-84 | when Part2::run does not panic it counts exactly the reports the corrected test accepts |
| Day2.Run2 | src/d2.rs:74-84 | Part2::run over every report the parser accepts: the count of accepted reports, or None at the first report on which is_safe panics |
| Day2.PanicStays | src/d2.rs:74-84 | a panic on one of the first k reports is a panic of the whole run |
| Day2.CountSafe2AtLeast | src/d2.rs:74-84 | part 2 counts at least as many reports as part 1 |
| Day3.RunEndUnique | src/d3.rs:15-17 | the digit scan ends at one determined position |
| Day3.MulArgsUnique | src/d3.rs:12-33 | the operands and length of a mul's arguments are determined by the text after `mul(` |
| Day3.MulArgsFromRuns | src/d3.rs:18-31 | given the two digit runs, well-formed arguments exist exactly when the first run is non-empty and ends at ',', the second is non-empty and ends at ')', and both values fit a u32 |
| Day3.ScanDigits | src/d3.rs:15-17 | the digit loop stops at the end of the run of digits starting at lo |
| Day3.ParseArgs | src/d3.rs:12-33 | parse_args: Some((a, b, n)) only for text starting with `a,b)` of length n with u32 operands; None exactly when no such prefix exists |
| Day3.ArgsOf | src/d3.rs:12-33 | the unique well-formed arguments at the start of the text |
| Day3.NoneBetween | src/d3.rs:38 | with no `mul(` between lo and hi the instructions from lo are those from hi |
| Day3.InsideInstruction | src/d3.rs:38-41 | the text of a well-formed instruction contains no other `mul(` |
| Day3.ResumeAfter | src/d3.rs:39-41 | after a well-formed instruction the remaining instructions start behind its `)` |
| Day3.ResumeInside | src/d3.rs:42-44 | after a `mul(` with malformed arguments the remaining instructions start right behind the `mul(` |
| Day3.OccursShifted | src/d3.rs:38 | a match in line[start..] at j is a match in line at start + j |
| Day3.NoMulAfter | src/d3.rs:38 | when find on line[start..] returns None, no `mul(` occurs from start on |
| Day3.MulAfter | src/d3.rs:38 | a match find reports at j in line[start..] is a `mul(` at start + j with none between start and it |
| Day3.FindMul | src/d3.rs:38 | `line[start..].find("mul(")`: None exactly when no `mul(` occurs from start on, else the first `mul(` position at or after start |
| Day3.RoundSome | src/d3.rs:39-41 | after a well-formed instruction at the first `mul(`, found-so-far plus the instruction plus those from behind its `)` are all instructions |
| Day3.RoundNone | src/d3.rs:42-44 | after malformed arguments at the first `mul(`, found-so-far plus the instructions from behind the `mul(` are all instructions |
| Day3.NoneLeft | src/d3.rs:38-46 | when no `mul(` is left the instructions found so far are all of them |
| Day3.ParseRound | src/d3.rs:38-44 | one round of the while-let loop: either no `mul(` is left and all instructions are found, or start moves forward within the line keeping found-so-far plus still-to-find equal to all instructions |
| Day3.AppendStep | src/d3.rs:40 | pushing one instruction moves it from still-to-find to found-so-far |
| Day3.ParseLine | src/d3.rs:34-47 | parse_line returns every instruction of the line in order: each `mul(` followed by `a,b)` with u32 operands, resuming behind the `)` |
| Day3.MulArgsShape | src/d3.rs:12-33 | well-formed arguments are at least 4 characters, end with `)` and have u32 operands |
| Day3.InstructionsFit | src/d3.rs:18-26 | every operand of every instruction fits a u32 |
| Day3.SumProductsAppend | src/d3.rs:52 | the sum of products is additive over concatenated instruction lists |
| Day3.Answer | src/d3.rs:49-54 | main's answer is the sum of the products of all instructions of the memory |
| Day3.SumProductsNext | src/d3.rs:52 | the sum over one more instruction adds its product |
| Day4.New | src/d4.rs:8-22 | Grid::new: width of the first line, height the number of lines; for equally wide lines, (r, c) holds byte c of line r |
| Day4.Cell | src/d4.rs:24-54 | the reference reading of the grid: a letter exactly for a row and column inside it |
| Day4.RowInside | src/d4.rs:25 | the row of a buffer position lies inside the grid |
| Day4.Offset | src/d4.rs:36-53 | the cell a rows and b columns from i, when inside, sits at i + a * width + b |
| Day4.Above | src/d4.rs:26 | the cell n rows up and b columns across is at i - n * width + b |
| Day4.Below | src/d4.rs:31 | the cell n rows down and b columns across is at i + n * width + b |
| Day4.UpMeans | src/d4.rs:24-27 | up holds exactly when the cell cnt rows above holds the letter |
| Day4.DownMeans | src/d4.rs:29-32 | down holds exactly when the cell cnt rows below holds the letter |
| Day4.UpRightMeans | src/d4.rs:34-37 | ur holds exactly when the cell cnt up and cnt right exists and holds the letter |
| Day4.UpLeftMeans | src/d4.rs:39-42 | ul holds exactly when the cell cnt up and cnt left exists and holds the letter |
| Day4.DownRightMeans | src/d4.rs:44-49 | lr holds exactly when the cell cnt down and cnt right exists and holds the letter |
| Day4.DownLeftMeans | src/d4.rs:51-54 | ll holds exactly when the cell cnt down and cnt left exists and holds the letter |
| Day4.RightMeans | src/d4.rs:56-68 | matches_right holds exactly when XMAS reads rightwards from the cell |
| Day4.LeftMeans | src/d4.rs:70-82 | matches_left holds exactly when XMAS reads leftwards from the cell |
| Day4.MatchesRight | src/d4.rs:56-68 | four cells to the right read XMAS within the row (no ensures; MatchesMeans states its meaning) |
| Day4.MatchesLeft | src/d4.rs:70-82 | four cells to the left read XMAS within the row (no ensures; MatchesMeans states its meaning) |
| Day4.MatchesUp | src/d4.rs:84-86 | four cells upwards read XMAS (no ensures; MatchesMeans states its meaning) |
| Day4.MatchesDown | src/d4.rs:88-93 | four cells downwards read XMAS (no ensures; MatchesMeans states its meaning) |
| Day4.MatchesUpRight | src/d4.rs:94-96 | four cells up and to the right read XMAS (no ensures; MatchesMeans states its meaning) |
| Day4.MatchesUpLeft | src/d4.rs:98-100 | four cells up and to the left read XMAS (no ensures; MatchesMeans states its meaning) |
| Day4.MatchesDownRight | src/d4.rs:102-104 | four cells down and to the right read XMAS (no ensures; MatchesMeans states its meaning) |
| Day4.MatchesDownLeft | src/d4.rs:106-108 | four cells down and to the left read XMAS (no ensures; MatchesMeans states its meaning) |
| Day4.MatchesMeans | src/d4.rs:84-108 | each of the eight matchers holds exactly when XMAS reads from the cell in its direction |
| Day4.CountMatchesAt | src/d4.rs:134-164 | count_matches_at is at most 8, and 0 from a cell that is not an X |
| Day4.CountMatchers | src/d4.rs:137-162 | the first k matchers succeed at most k times |
| Day4.CountMatchersMeans | src/d4.rs:137-162 | the successful matchers are the directions in which XMAS reads from the cell |
| Day4.CountDirectionsNoX | src/d4.rs:137 | XMAS reads in no direction from a cell without an X |
| Day4.CountMatchesAtMeans | src/d4.rs:134-164 | count_matches_at counts the directions in which XMAS reads from the cell |
| Day4.CountMatchesBelow | src/d4.rs:166-168 | the first n cells give at most 8 n matches |
| Day4.CountMatches | src/d4.rs:166-168 | count_matches: the sum of count_matches_at over every cell (no ensures; CountMatchesBelow and CountMatchesAtX state its bounds) |
| Day4.CountMatchesAtX | src/d4.rs:166-168 | every match starts from an X and one X starts at most eight |
| Day4.OnlyX | src/d4.rs:166-168 | with a single X in the grid, count_matches is the count at that X |
| Day4.TestBasicDown | src/d4.rs:199-205 | the first grid of test_basic, XMAS read downwards, holds exactly one match |
| Day4.TestBasicRight | src/d4.rs:247-253 | the seventh grid of test_basic, XMAS read to the right, holds exactly one match |
| Day4.RightDirections | src/d4.rs:247-253 | in that grid XMAS reads in exactly one direction from its X |
| Day5.Positions | src/bin/d5.rs:13-20 | the recorded positions lie within the part of the update scanned so far |
| Day5.PositionsMeans | src/bin/d5.rs:13-20 | the scan records the last position of the earlier page and the last position of the later page not equal to it, None when there is none |
| Day5.Unique | src/bin/d5.rs:12-22 | in an update naming each page once, a page has one position |
| Day5.OrderedMeans | src/bin/d5.rs:12-22 | on such an update a rule holds exactly when every earlier page comes before every later page |
| Day5.Scan | src/bin/d5.rs:13-20 | the scan loop computes the reference positions |
| Day5.IsOrdered | src/bin/d5.rs:12-22 | Rule::is_ordered: true exactly when a page is missing or the earlier page's position is below the later one's |
| Day5.Middle | src/bin/d5.rs:32 | `l[l.len() / 2]`, the middle page (no ensures) |
| Day5.Part1 | src/bin/d5.rs:28-34 | Part1::run: the middle pages of the updates that keep every rule (no ensures; Part1Partition relates it to part 2) |
| Day5.Part1Partition | src/bin/d5.rs:28-34 | part 1's sum plus the sum of the broken updates' middle pages is the sum of all middle pages, and part 1 takes every update when all keep every rule |
| Day5.Swap | src/bin/d5.rs:57-59 | exchanging two pages keeps the multiset of pages and every other position |
| Day5.Fix | src/bin/d5.rs:46-61 | one inner step of order keeps the length and the multiset of pages |
| Day5.FixKept | src/bin/d5.rs:54 | a rule that holds causes no swap |
| Day5.FixRepairs | src/bin/d5.rs:46-61 | on an update naming each page once, the swap keeps pages distinct and makes the rule hold |
| Day5.Pass | src/bin/d5.rs:45-62 | a pass over the rules keeps the length and multiset of pages |
| Day5.PassKept | src/bin/d5.rs:45-62 | a pass over rules that all hold changes nothing |
| Day5.Reorder | src/bin/d5.rs:43-64 | order keeps the length and multiset of the pages |
| Day5.IterateKeeps | src/bin/d5.rs:44-63 | a property every round keeps holds where the rounds of the outer loop end |
| Day5.IterateStops | src/bin/d5.rs:44 | rounds that end without done made every one of the fuel rounds, and done failed before each of them and after the last |
| Day5.IterateFirstDone | src/bin/d5.rs:44 | rounds that end with done stop after the first round n at which done holds |
| Day5.IterateMore | src/bin/d5.rs:44 | once the rounds end with done, more fuel ends in the same place |
| Day5.ReorderStops | src/bin/d5.rs:44-63 | an update keeping every rule is not changed; an update order leaves breaking a rule had all fuel passes made over it and broke a rule before each pass and after the last |
| Day5.ReorderFirstOrdered | src/bin/d5.rs:44-63 | an update order leaves keeping every rule is the first of the successive passes that keeps every rule |
| Day5.ReorderMore | src/bin/d5.rs:44-63 | once order ends with every rule kept, more fuel leaves the same update |
| Day5.SwapCells | src/bin/d5.rs:57-59 | the swap through a temporary exchanges the two cells of the buffer |
| Day5.PassInPlace | src/bin/d5.rs:45-62 | the inner loop in place leaves the buffer as the pass makes it |
| Day5.AllOrderedScan | src/bin/d5.rs:40-42 | Part2::is_ordered: true exactly when every rule holds |
| Day5.Order | src/bin/d5.rs:43-64 | order in place leaves the update as Reorder makes it and reports whether every rule now holds |
| Day5.SumSomeNone | src/bin/d5.rs:69-74 | the running sum has no answer exactly when some update has none |
| Day5.SumSomeSame | src/bin/d5.rs:69-74 | a sum with an answer is unchanged when each update's answer is kept |
| Day5.Part2None | src/bin/d5.rs:65-76 | part 2 gives no answer exactly when order, within the fuel, leaves some update breaking a rule |
| Day5.Part2More | src/bin/d5.rs:65-76 | once part 2 has an answer, more fuel gives the same answer, so the answer is the source's |
| Day5.UpdateOutcome | src/bin/d5.rs:70-73 | one update: nothing when it keeps every rule, otherwise its middle page after order in place, None when order runs out of fuel |
| Day5.Run2 | src/bin/d5.rs:65-76 | Part2::run computes Part2: the sum of the middle pages of the reordered broken updates, None exactly as Part2None says |
| Day5.Part2 | src/bin/d5.rs:65-76 | what Part2::run adds up, None when order runs out of fuel on some update (no ensures; Part2None, Part2More and Run2 state it) |
| Day5.Part2OnlyBroken | src/bin/d5.rs:69 | part 2 adds nothing when every update already keeps every rule |
| Day6.FromByte | src/bin/d6.rs:103-113 | From<u8>: an obstacle exactly for '#', the start exactly for '^', and no passes recorded on a new cell |
| Day6.Visit | src/bin/d6.rs:54-61 | visit appends the pass (step, dir) to the cell's passes and keeps its kind; the source panics on an obstacle |
| Day6.FirstWith | src/bin/d6.rs:66-69 | the position of the first pass facing dir: None exactly when there is none |
| Day6.Visited | src/bin/d6.rs:63-71 | visited: None for an obstacle or a cell never passed facing dir, otherwise the step of the first such pass |
| Day6.FirstWithAppend | src/bin/d6.rs:66-69 | appending a pass changes the first pass facing d only when there was none and the new one faces d |
| Day6.VisitThenVisited | src/bin/d6.rs:54-71 | after a pass facing dir, visited(d) is unchanged if d was already recorded, and otherwise the new step exactly when d is dir |
| Day6.Step | src/bin/d6.rs:17-26 | one iteration: None exactly when the guard faces the edge; a turn right in place before an obstacle; otherwise one step onto the open neighbour |
| Day6.Iter | src/bin/d6.rs:17-26 | after k iterations the guard, while still inside, stands in the grid |
| Day6.IterAdd | src/bin/d6.rs:17-26 | a + c iterations are a iterations followed by c |
| Day6.CycleForever | src/bin/d6.rs:127-139 | a state the guard comes back to is never left: the walk goes on for ever |
| Day6.CyclesNotLeaves | src/bin/d6.rs:127-140 | a guard in a loop never leaves the grid |
| Day6.SetSameWalls | src/bin/d6.rs:24 | overwriting a cell with a value that is an obstacle exactly when the old one was keeps the obstacles |
| Day6.IterSameWalls | src/bin/d6.rs:17-26 | the walk depends only on where the obstacles are |
| Day6.SameWallsAt | src/bin/d6.rs:17-26 | two grids with the same obstacles agree on whether a cell is blocked |
| Day6.CyclesSameWalls | src/bin/d6.rs:127-139 | a loop depends only on where the obstacles are |
| Day6.LeavesSameWalls | src/bin/d6.rs:127-140 | leaving the grid depends only on where the obstacles are |
| Day6.Patrol | src/bin/d6.rs:17-26 | the part 1 walk keeps the grid walkable |
| Day6.PatrolKeepsWalls | src/bin/d6.rs:24 | drawing arrows never creates or removes an obstacle |
| Day6.PatrolSound | src/bin/d6.rs:14-26 | every cell the walk records is reached by the guard, is inside the grid and is not '#'; it reports leaving only when the guard leaves |
| Day6.PatrolComplete | src/bin/d6.rs:17-26 | conversely, a cell the guard stands on after at most fuel moves is its start or a cell the walk records |
| Day6.PatrolReaches | src/bin/d6.rs:17-26 | every cell the walk records is reached by the guard in some number of moves |
| Day6.PatrolOpen | src/bin/d6.rs:17-26 | every cell the walk records is in the grid and not an obstacle |
| Day6.PatrolLeaves | src/bin/d6.rs:17-26 | the walk reports leaving only when the guard walks off the grid |
| Day6.LeavesPatrol | src/bin/d6.rs:17-26 | a guard that faces the edge after k iterations is seen to leave by a walk of k + 1 iterations |
| Day6.PatrolEndsIffLeaves | src/bin/d6.rs:17-26 | the part 1 walk ends for some fuel exactly when the guard walks off the grid |
| Day6.Part1 | src/bin/d6.rs:6-28 | _part1: None (the unwrap's panic) exactly when the grid has no '^', the grid then untouched; otherwise it starts at the first '^' facing up and leaves the grid and visited set as the reference walk makes them, the start included |
| Day6.PatrolLoop | src/bin/d6.rs:16-26 | the while-let loop in place leaves the grid, the visited set and whether the guard left as the reference walk makes them, the start included |
| Day6.PatrolIteration | src/bin/d6.rs:17-26 | one loop iteration, in place, keeps what remains of the reference walk |
| Day6.ChainIter | src/bin/d6.rs:127-139 | states j - i apart in a chain of the walk are j - i iterations apart |
| Day6.ChainExtend | src/bin/d6.rs:127-139 | appending the next state keeps a chain of the walk |
| Day6.ChainRepeat | src/bin/d6.rs:132-134 | a walk that steps back into a state it has been in loops |
| Day6.LoopsFromMeans | src/bin/d6.rs:127-140 | the loop of would_loop_if_turn answers true only when the walk loops and false only when it leaves |
| Day6.WouldLoopMeans | src/bin/d6.rs:115-141 | with an obstacle on next, the answer is true exactly when the guard then walks in a loop and false exactly when it leaves, when the fuel suffices |
| Day6.Exclusive | src/bin/d6.rs:115-141 | an answer implying one of two exclusive outcomes is decided by them |
| Day6.TurnChain | src/bin/d6.rs:123-126 | with next obstructed, the guard's first iteration is the right turn in place |
| Day6.WouldLoopIfTurn | src/bin/d6.rs:115-141 | would_loop_if_turn on a clone with next obstructed returns the reference answer and leaves the caller's grid untouched |
| Day6.LoopIteration | src/bin/d6.rs:127-139 | one iteration on the clone keeps its obstacles and what remains of the reference answer |
| Day6.Walk2 | src/bin/d6.rs:160-173 | the part 2 walk keeps the grid walkable and only adds trapping cells |
| Day6.LoopsFromMore | src/bin/d6.rs:127-140 | once would_loop_if_turn's loop answers within the fuel, more fuel gives the same answer |
| Day6.Walk2More | src/bin/d6.rs:156-173 | once the part 2 walk leaves the grid with every try answered, more fuel and budget give the same grid and cells |
| Day6.Walk2KeepsWalls | src/bin/d6.rs:169 | recording passes never creates or removes an obstacle |
| Day6.Walk2Move | src/bin/d6.rs:164-172 | one step onto an open cell: try an obstacle when the cell is new, record the pass, step on |
| Day6.TrapsSameWalls | src/bin/d6.rs:164 | whether an obstacle traps the guard depends only on where the obstacles are |
| Day6.Walk2Sound | src/bin/d6.rs:160-173 | every cell part 2 adds was off the path walked so far and an obstacle there traps the guard from some state; Walk2Traps names the state |
| Day6.ObstructSameWalls | src/bin/d6.rs:122-123 | obstructing the same cell of two grids with the same obstacles keeps their obstacles the same |
| Day6.LoopsFromSameWalls | src/bin/d6.rs:127-140 | the answer of would_loop_if_turn's loop depends only on where the obstacles are, not on the recorded passes |
| Day6.ChainAvoids | src/bin/d6.rs:160-173 | an obstacle on a cell no state of a walk stands on leaves that walk as it was |
| Day6.CyclesBack | src/bin/d6.rs:127-140 | a loop reached from the end of a walk is reached from its start |
| Day6.FoundTraps | src/bin/d6.rs:164-167 | when would_loop_if_turn says true for the cell ahead and the walk so far never stood on it, an obstacle there traps the guard from the walk's first state |
| Day6.Walk2Traps | src/bin/d6.rs:160-173 | every cell the walk adds was off the path so far, is open, and an obstacle there traps the guard from the walk's first state on the grid the walk began on |
| Day6.Part2Traps | src/bin/d6.rs:153-173 | every cell part2 counts is not the start, and an obstacle there sends the guard, starting at the start facing up, round a loop |
| Day6.Walk2Complete | src/bin/d6.rs:160-173 | conversely, a cell the guard first steps onto within the fuel from a state where would_loop_if_turn says true is counted |
| Day6.CompleteStep | src/bin/d6.rs:160-173 | one iteration along a first entry leaves the rest of the walk, from the next state, to count the cell |
| Day6.CompleteHere | src/bin/d6.rs:164-167 | when the first entry is the current step the cell is counted |
| Day6.EnterHere | src/bin/d6.rs:164-167 | stepping onto a new cell where would_loop_if_turn says true adds it |
| Day6.Part2Complete | src/bin/d6.rs:153-173 | part2 counts every cell the guard, walking from the start facing up, first steps onto within the fuel from a state where would_loop_if_turn says true |
| Day6.Part2 | src/bin/d6.rs:143-176 | part2: None (the failed assert) exactly when find_with does not report exactly one start cell, the grid then untouched; otherwise the walk from that cell facing up leaves the grid as the reference walk Walk2 makes it, and the answer is None exactly when the walk or one of its tries runs out of fuel (Walk2Done) and otherwise the count of distinct cells Walk2 adds, which Part2Traps and Part2Complete characterise and Walk2More shows fuel-independent |
| Day6.Walk2Loop | src/bin/d6.rs:156-173 | the while loop of part2 leaves the grid and loop set as the reference walk makes them and reports whether it ended with every try answered |
| Day6.Walk2Iteration | src/bin/d6.rs:160-173 | one iteration, in place, keeps what remains of the reference walk and of whether every try is answered |
| Day7.PartialShift | src/bin/d7.rs:16-19 | evaluating the first operator and then the rest from its value gives the same value |
| Day7.ReachesShift | src/bin/d7.rs:16-19 | a whole operator choice reaches the total exactly when the start is not above it and the rest reaches it from the first operator's value |
| Day7.SolvableAbove | src/bin/d7.rs:11-12 | nothing is reachable once the accumulator exceeds the total |
| Day7.SolvableEmpty | src/bin/d7.rs:13-14 | with no numbers left, solvable exactly when the accumulator is the total |
| Day7.SolvableFirst | src/bin/d7.rs:15-20 | a solution starts with an allowed operator and solves the rest from its value |
| Day7.SolvableExtend | src/bin/d7.rs:15-20 | an allowed operator followed by a solution of the rest is a solution |
| Day7.SolvableStep | src/bin/d7.rs:15-20 | solvable exactly when some allowed first operator leaves a solvable rest |
| Day7.SolvableWiden | src/bin/d7.rs:24-43 | allowing more operators keeps every solution |
| Day7.CheckPart1 | src/bin/d7.rs:10-22 | check_part1: try + then *, giving up once the accumulator passes the total (no ensures; CheckPart1Means states its meaning) |
| Day7.CheckPart1Means | src/bin/d7.rs:10-22 | check_part1 is true exactly when some choice of + and * reaches the total without passing it |
| Day7.ShiftInIsConcat | src/bin/d7.rs:35-39 | acc * 10^(ilog10(x) + 1) + x is the decimal concatenation of acc and x |
| Day7.CheckPart2 | src/bin/d7.rs:24-43 | check_part2: try +, then *, then concatenation; None is the panic of ilog10(0) (no ensures; CheckPart2Means states its meaning) |
| Day7.CheckPart2Means | src/bin/d7.rs:24-43 | whenever check_part2 finishes its answer is whether +, * and concatenation can reach the total |
| Day7.Part2Step | src/bin/d7.rs:29-41 | the three branches' answers decide the whole search |
| Day7.CheckPart2Finishes | src/bin/d7.rs:35 | with positive numbers check_part2 never reaches ilog10(0) and always finishes |
| Day7.Part1ImpliesPart2 | src/bin/d7.rs:10-43 | a line passing part 1 never fails part 2, and passes it when its numbers are positive |
| Day7.Part2PanicsOnZero | src/bin/d7.rs:35 | `9: 3 3 0` passes part 1, but part 2 first explores 3 + 3 and panics at ilog10(0) |
| Day7.ParseItem | src/bin/d7.rs:58-77 | Item::from_str returns its Err exactly when the line has no ':' |
| Day7.ParseItemMeans | src/bin/d7.rs:59-73 | with the first ':' at i, the line parses exactly when the text before it is a u64 and every word after it a u16, and then those are the total and components |
| Day7.ParseLines | src/bin/d7.rs:84-86 | when every trimmed line parses, the items are the lines' parses, in order |
| Day7.ConsRelated | src/bin/d7.rs:84-86 | a relation holding of the heads and pointwise of the tails holds pointwise |
| Day7.CheckedSumMeans | src/bin/d7.rs:87-96 | whenever the filtered sum finishes it is the sum of the totals of the lines that can be calibrated |
| Day7.CheckedSumFinishes | src/bin/d7.rs:87-96 | with every line holding at least one component, all positive, the sum finishes |
| Day7.AnswerMeans | src/bin/d7.rs:80-98 | main's answer, when there is one, is the sum of the calibrated totals of the parsed lines |
| Day7.ExampleLines | src/bin/d7.rs:100-105 | 190: 10 19 passes part 1; 156: 15 6 fails part 1 and passes part 2 |
| Day9.Repeat | src/bin/d9.rs:16-23 | n copies of v |
| Day9.Expanded | src/bin/d9.rs:13-27 | the disk a map describes: for each digit, that many cells of the next file id or free (no ensures; ExpandedLength and ExpandedCounts state it) |
| Day9.Block | src/bin/d9.rs:13-27 | digit i of the map stands for as many cells as its value |
| Day9.ExpandedLength | src/bin/d9.rs:13-27 | the disk is as long as the digits of the map add up to |
| Day9.ExpandedCounts | src/bin/d9.rs:13-27 | file j occupies exactly as many cells as digit 2j says, and a file id with no digit occupies none |
| Day9.RepeatCount | src/bin/d9.rs:16-23 | n copies of v hold v n times and nothing else |
| Day9.Expand | src/bin/d9.rs:11-27 | the expansion loop appends the disk the map describes |
| Day9.ScanUp | src/bin/d9.rs:37-39 | the first free cell at or after i |
| Day9.ScanDown | src/bin/d9.rs:41-43 | the last used cell at or before i |
| Day9.Swap | src/bin/d9.rs:35 | `data.swap` exchanges two cells and keeps the multiset of cells |
| Day9.CompactStep | src/bin/d9.rs:35-43 | one round of the loop keeps the loop's invariant, lowers last_used and keeps the multiset of cells |
| Day9.Compacting | src/bin/d9.rs:34-44 | the compaction loop keeps the multiset of cells |
| Day9.CompactingCompacts | src/bin/d9.rs:34-44 | started with all cells before first_free used and last_used the last used cell, the loop puts every used cell before every free cell |
| Day9.TrailingGapDisk | src/bin/d9.rs:10-27 | the map "1121" expands to file 0, a gap, file 1 of two cells and a trailing gap |
| Day9.TrailingGapNotCompacted | src/bin/d9.rs:28-44 | as written, with last_used on the trailing free cell, the loop leaves that disk uncompacted |
| Day9.TrailingGapStep | src/bin/d9.rs:34-43 | the single round of the loop on that disk swaps two free cells and ends |
| Day9.StepScans | src/bin/d9.rs:35-43 | after the swap both scan loops have a cell to stop at |
| Day9.StepDone | src/bin/d9.rs:35-43 | the swap followed by the two scans is one round of the reference loop |
| Day9.NextFree | src/bin/d9.rs:37-39 | the first_free loop stops at the first free cell |
| Day9.PrevUsed | src/bin/d9.rs:41-43 | the last_used loop stops at the last used cell |
| Day9.CompactLoop | src/bin/d9.rs:34-44 | the loop in place leaves the disk as the reference loop does |
| Day9.CompactRound | src/bin/d9.rs:35-43 | one round in place keeps the invariant and what remains of the reference loop |
| Day9.CompactAsWritten | src/bin/d9.rs:28-44 | part1's compaction as written: first_free the first free cell, last_used the last cell; keeps the cells |
| Day9.FirstFree | src/bin/d9.rs:28-32 | the position of the first free cell |
| Day9.FirstFreeScan | src/bin/d9.rs:28-32 | find_map returns the first free cell |
| Day9.CompactedDisk | src/bin/d9.rs:28-44 | the disk after part1's loop run from the first free cell and the last used cell (no ensures; CompactedDiskCompacts states what it holds) |
| Day9.CompactedDiskCompacts | src/bin/d9.rs:28-44 | that disk holds the same cells, every used cell before every free cell |
| Day9.Compact | src/bin/d9.rs:28-44 | the compaction in place started at the last used cell leaves exactly CompactedDisk of the old disk, so it keeps the cells and puts every used cell before every free cell |
| Day9.FindFree | src/bin/d9.rs:28-32 | find_map for a free cell: None (the unwrap's panic) exactly when the disk has no free cell, otherwise the first one |
| Day9.ScanUpFirst | src/bin/d9.rs:28-32 | a free cell with only used cells before it is the one the scan for a free cell finds |
| Day9.AnyUsed | src/bin/d9.rs:33 | true exactly when some cell holds a file |
| Day9.Checksum | src/bin/d9.rs:45-51 | the fold: the sum of position times id over the used cells (no ensures; ChecksumFreeTail states a property) |
| Day9.ChecksumFreeTail | src/bin/d9.rs:45-51 | free cells at the end of the disk add nothing to the checksum |
| Day9.Part1DiskCompacted | src/bin/d9.rs:28-44 | corrected: the disk the corrected part1 takes the checksum of holds the map's cells, every used cell before every free cell |
| Day9.Part1Compact | src/bin/d9.rs:33-44 | corrected: the loop, started at the last used cell, in place leaves exactly the disk Part1Disk describes: compacted when a file cell exists, unchanged otherwise |
| Day9.Part1 | src/bin/d9.rs:10-53 | part1 corrected (last_used starts at the last used cell): None (the unwrap's panic) exactly when the disk has no free cell; otherwise the checksum of Part1Disk of the map's disk, which is a compacted rearrangement of its cells |
| Day9.NoFreeCellPanics | src/bin/d9.rs:28-32 | the map `1` is a single file cell, so part1 finds no free cell |
| Day9.Part1DiskAsWritten | src/bin/d9.rs:28-44 | the disk part1 as written takes the checksum of: the loop run from the first free cell and the last cell (no ensures; Part1DiskAsWrittenKeeps and TrailingGapChecksums state what it does) |
| Day9.Part1DiskAsWrittenKeeps | src/bin/d9.rs:33-44 | as written the loop keeps the disk's cells and its length |
| Day9.Part1AsWritten | src/bin/d9.rs:10-53 | part1 as written: None exactly where the source panics (no free cell for the unwrap, or two or more cells and no file, where last_used steps below 0); otherwise the checksum of the disk the loop as written leaves |
| Day9.Part1CompactAsWritten | src/bin/d9.rs:33-44 | the loop as written in place, run only when a file cell exists: leaves exactly Part1DiskAsWritten |
| Day9.TrailingGapChecksums | src/bin/d9.rs:10-53 | on the map "1121" part1 as written gives 5 and the corrected part1 gives 3 |
| Day9.TrailingGapAsWritten | src/bin/d9.rs:28-51 | as written the disk `0 . 1 1 .` is left as it is and sums to 5 |
| Day9.TrailingGapCorrected | src/bin/d9.rs:28-51 | corrected, the disk `0 . 1 1 .` becomes `0 1 1 . .` and sums to 3 |
| Day9.TrailingGapCorrectedDisk | src/bin/d9.rs:28-44 | corrected, the loop leaves the disk `0 . 1 1 .` as `0 1 1 . .` |
| Day9.TrailingGapScans | src/bin/d9.rs:28-33 | on that disk the first free cell is cell 1 and the last file cell is cell 3 |
| Day9.TrailingGapCorrectedStep | src/bin/d9.rs:34-43 | the corrected loop's one round on that disk swaps cells 1 and 3, then stops |
| Day9.ChecksumFive | src/bin/d9.rs:45-51 | the fold over `0 . 1 1 .` is 5 |
| Day9.ChecksumThree | src/bin/d9.rs:45-51 | the fold over `0 1 1 . .` is 3 |
| Day9.MinExistsUpTo | src/bin/d9.rs:93 | a non-empty multiset of numbers has a least element |
| Day9.MinOf | src/bin/d9.rs:93 | `peek` on a min-heap: the least entry |
| Day9.NineEmpty | src/bin/d9.rs:64 | the nine buckets start empty |
| Day9.Spans | src/bin/d9.rs:66-85 | Part2::new fills the nine buckets |
| Day9.ExtendSpans | src/bin/d9.rs:66-85 | growing the disk keeps every entry a free run |
| Day9.PushMembers | src/bin/d9.rs:74 | after a push a bucket holds its old entries and the pushed one |
| Day9.PushSpan | src/bin/d9.rs:74 | pushing a free run that overlaps no entry keeps the buckets valid |
| Day9.PushFree | src/bin/d9.rs:74 | pushing a free run keeps every entry a free run |
| Day9.PushDisjoint | src/bin/d9.rs:74 | pushing a run no entry overlaps keeps the entries apart |
| Day9.ExpandedNext | src/bin/d9.rs:66-85 | one more digit appends its block to the disk |
| Day9.SpansNext | src/bin/d9.rs:69-75 | one more positive gap digit pushes the gap's start on the bucket of its length |
| Day9.Parity | src/bin/d9.rs:84 | the digits alternate between files and gaps |
| Day9.DiskNext | src/bin/d9.rs:66-85 | the disk after one more digit is the old one with the digit's block appended |
| Day9.AppendRun | src/bin/d9.rs:71-81 | the inner loop pushes n copies of v |
| Day9.DigitStep | src/bin/d9.rs:66-85 | one digit of Part2::new keeps every bucket entry a free run and the entries apart |
| Day9.SpansValid | src/bin/d9.rs:61-88 | the buckets Part2::new builds hold free runs of their length that do not overlap |
| Day9.GrowSpans | src/bin/d9.rs:67-83 | appending cells keeps the buckets valid, and pushing the start of appended free cells does too |
| Day9.PopSpan | src/bin/d9.rs:103 | popping an entry keeps the buckets valid and the rest avoid its run |
| Day9.PopMembers | src/bin/d9.rs:103 | after a pop what is left was there before and the popped start is gone from the bucket |
| Day9.RewriteSpans | src/bin/d9.rs:104-105 | rewriting cells outside every entry, or freeing them, keeps every entry a free run |
| Day9.CopyWithin | src/bin/d9.rs:104 | copy_within: the l cells at dst become those at src, every other cell is unchanged |
| Day9.Fill | src/bin/d9.rs:105 | fill: the l cells at from become free, every other cell is unchanged |
| Day9.SwapPieces | src/bin/d9.rs:104-105 | exchanging two pieces of a sequence keeps its elements |
| Day9.MovePreserves | src/bin/d9.rs:102-107 | moving a file of l equal cells into a free run before it keeps the multiset of cells |
| Day9.MoveKeepsSpans | src/bin/d9.rs:174-180 | after the move and the push of the leftover gap the buckets are valid over the new disk |
| Day9.MoveOutside | src/bin/d9.rs:104-105 | outside the target run a move leaves a cell as it was or frees it |
| Day9.LeftoverFree | src/bin/d9.rs:177-178 | the cells of the gap the file does not fill stay free |
| Day9.Part2.constructor | src/bin/d9.rs:61-88 | Part2::new appends the disk the map describes and fills the buckets; the buckets are valid |
| Day9.Part2.FirstFit | src/bin/d9.rs:90-100 | first_fit returns a bucket of gaps of at least len cells with a gap before src whose least start is smallest, the first on a tie; None exactly when no such bucket has a gap before src |
| Day9.Part2.MoveData | src/bin/d9.rs:102-107 | move_data pops the least start of the bucket, copies the run there, frees the source and returns the start |
| Day9.FitScanFound | src/bin/d9.rs:92-98 | the loop of first_fit picks only a bucket from its start on that has a gap before src |
| Day9.FirstFitOfFound | src/bin/d9.rs:90-100 | first_fit chooses a bucket of gaps of at least len cells with a gap before src |
| Day9.BestStep | src/bin/d9.rs:93-97 | one bucket of first_fit's loop keeps the best bucket so far: a smaller least start replaces it, a tie keeps the earlier one |
| Day9.FitScanBest | src/bin/d9.rs:92-98 | the loop from bucket i on ends with the best bucket over the whole range |
| Day9.FirstFitOfBest | src/bin/d9.rs:90-100 | first_fit picks a bucket of long enough gaps with a gap before src whose least start is smallest, the earliest on a tie; None exactly when no such bucket has one |
| Day9.CopyLands | src/bin/d9.rs:104-105 | copying a file into a free run before it and freeing its cells puts the file there and leaves its old cells free |
| Day9.PushLeftover | src/bin/d9.rs:177-178 | pushing the leftover part of the gap keeps every entry a free run and the entries apart |
| Day9.MoveRunSpecValid | src/bin/d9.rs:174-180 | moving a run of equal cells into the chosen gap and pushing the leftover keeps the buckets valid and the disk's length and cells |
| Day9.MoveRunLands | src/bin/d9.rs:174-180 | a moved file lands in the gap, wholly before the cells it left, which are free afterwards |
| Day9.FreeRunBefore | src/bin/d9.rs:94 | a free run that starts before a used cell ends before it |
| Day9.RunStart | src/bin/d9.rs:165-173 | the inner loop stops at the start of the run of equal cells ending at scan |
| Day9.RunStartRun | src/bin/d9.rs:165-173 | every cell from the run start up to scan holds the same file |
| Day9.PrevScan | src/bin/d9.rs:181-186 | the last loop steps scan back to the previous used cell, or to 0, below scan |
| Day9.PrevScanSkips | src/bin/d9.rs:181-186 | every cell stepped over is free |
| Day9.RoundValid | src/bin/d9.rs:158-187 | one round of the scan loop keeps the buckets valid and the disk's length and cells, and lowers scan |
| Day9.ScanFromKeeps | src/bin/d9.rs:155-187 | the whole scan loop keeps the buckets valid and the disk's length and cells |
| Day9.ScanFromRound | src/bin/d9.rs:158-187 | the scan loop is one round followed by the loop from the next scan, with the buckets valid |
| Day9.ScanDisk | src/bin/d9.rs:155-187 | the disk the whole scan loop leaves holds the same cells |
| Day9.Part2Disk | src/bin/d9.rs:153-187 | the disk part2 takes the checksum of holds the cells of the map's disk |
| Day9.Part2.Scan | src/bin/d9.rs:155-187 | the scan loop leaves exactly the buckets and disk of the reference loop ScanFrom, keeping the buckets valid and the disk's length and cells |
| Day9.Part2.ScanRound | src/bin/d9.rs:158-187 | one round in place gives exactly Round's buckets, disk and next scan |
| Day9.Part2.RunBack | src/bin/d9.rs:165-173 | the inner loop ends at the start of the run and counts its length |
| Day9.Part2.PrevUsedFrom | src/bin/d9.rs:181-186 | the last loop ends where PrevScan says |
| Day9.Part2.MoveRun | src/bin/d9.rs:174-180 | the new buckets and disk are exactly MoveRunSpec's: the least gap popped, the run copied there and freed, the leftover pushed on bucket idx - l; the cells and the buckets' validity are kept |
| Day9.Part2Checksum | src/bin/d9.rs:153-197 | part2: None exactly when the map is empty (`len() - 1` underflows) or a file digit is 0 (the assert of Part2::new); otherwise the checksum of Part2Disk, the disk the scan loop leaves, which holds the map's cells |
| Day9.Part2Run | src/bin/d9.rs:153-187 | Part2::new followed by the scan loop leaves exactly Part2Disk |
| Day9.Part2DiskFrom | src/bin/d9.rs:153-187 | the state Part2::new builds is where the scan loop of Part2Disk starts |
| Day9.ZeroFileDigit | src/bin/d9.rs:77-78 | true exactly when some file digit is 0 |
| Day9.ExpandedNonEmpty | src/bin/d9.rs:155 | a map whose first digit is positive describes a non-empty disk |
| Day10.LevelFrom | src/bin/d10.rs:13-18 | From<u8> accepts only ASCII digits and gives the digit's value |
| Day10.Elevation | src/bin/d10.rs:26 | every level of the map is at most 9 |
| Day10.Uphill | src/bin/d10.rs:35-37 | the neighbour along d exactly when get finds it one level higher; it is start.in_dir(dir) |
| Day10.TrailLength | src/bin/d10.rs:25-45 | a trail climbs one level per cell, so from height h it has 10 - h cells |
| Day10.TrailTail | src/bin/d10.rs:37 | the rest of a trail after its first cell is a trail |
| Day10.TrailCons | src/bin/d10.rs:37 | a neighbour one level below the start of a trail extends it |
| Day10.TrailStep | src/bin/d10.rs:34-41 | a trail from below 9 goes on through an uphill neighbour |
| Day10.TraceFrom | src/bin/d10.rs:25-45 | Part1::trace_from returns only cells of height 9 inside the map |
| Day10.Summits | src/bin/d10.rs:35-40 | one pass of the direction loop returns only summits |
| Day10.SummitsSplit | src/bin/d10.rs:34-42 | each summit from a cell below 9 comes from some direction |
| Day10.TraceFromSound | src/bin/d10.rs:25-45 | every summit trace_from returns ends a trail from p |
| Day10.TrailToCons | src/bin/d10.rs:37 | a trail from an uphill neighbour gives a trail from p |
| Day10.TraceFromComplete | src/bin/d10.rs:25-45 | the end of every trail from p is returned |
| Day10.TraceFromMeans | src/bin/d10.rs:25-45 | trace_from(p) holds exactly the cells some trail leads to from p |
| Day10.Trails | src/bin/d10.rs:53-72 | every listed trail starts at p |
| Day10.Branch | src/bin/d10.rs:62-67 | the trails listed along d start at p and step to the uphill neighbour along d |
| Day10.Prepend | src/bin/d10.rs:64 | each trail with p put in front |
| Day10.DistinctConcat | src/bin/d10.rs:61-69 | two lists without repeats and without common trails concatenate without repeats |
| Day10.PrependDistinct | src/bin/d10.rs:64 | putting p in front keeps trails distinct |
| Day10.BranchesApart | src/bin/d10.rs:61-69 | branches along different directions share no trail |
| Day10.BranchDistinct | src/bin/d10.rs:62-67 | one branch lists no trail twice |
| Day10.TrailsDistinct | src/bin/d10.rs:53-72 | the recursion lists no trail twice |
| Day10.BranchOf | src/bin/d10.rs:61-69 | each listed trail from below 9 comes from some direction's branch |
| Day10.TrailsSound | src/bin/d10.rs:53-72 | every listed trail is a trail from p |
| Day10.TrailsComplete | src/bin/d10.rs:53-72 | every trail from p is listed |
| Day10.PrependIn | src/bin/d10.rs:64 | a trail in a list, with p in front, is in the prepended list |
| Day10.TrailsMeans | src/bin/d10.rs:53-72 | the listed trails are exactly the trails starting at p |
| Day10.Rating | src/bin/d10.rs:53-72 | Part2::trace_from: 1 at a summit, otherwise the sum over the four directions (no ensures; RatingCounts states its meaning) |
| Day10.RatingCounts | src/bin/d10.rs:53-72 | Part2::trace_from is the number of trails from p |
| Day10.RatingViaCounts | src/bin/d10.rs:62-67 | one direction adds the number of trails of its branch |
| Day10.AllTrailsMeans | src/bin/d10.rs:83-85 | the trails of all trailheads are exactly the trails starting at one of them |
| Day10.AllTrailsCount | src/bin/d10.rs:83-86 | for distinct trailheads the summed ratings count those trails, none twice |
| Day10.TotalRating | src/bin/d10.rs:83-86 | the ratings of the given trailheads, summed (no ensures; AllTrailsCount states its meaning) |
| Day10.Answer | src/bin/d10.rs:74-87 | main: the ratings of the level-0 cells, summed (no ensures; AnswerCounts states its meaning) |
| Day10.AnswerCounts | src/bin/d10.rs:74-87 | main's sum over the level-0 cells counts every trail from a trailhead exactly once |
| Day11.Rule | src/bin/d11.rs:4-18 | one stone becomes two stones exactly when it has an even number of digits, otherwise one |
| Day11.EvenDigitsIlog10 | src/bin/d11.rs:7 | ilog10 is odd exactly when the stone has an even number of digits |
| Day11.HalvesRecombine | src/bin/d11.rs:8-12 | the halves lose nothing: left times 10^h plus right is the stone, the right has at most h digits and the left exactly h |
| Day11.LeadingDigitBound | src/bin/d11.rs:8-10 | a digit string of length n not starting with 0 denotes at least 10^(n-1) |
| Day11.Blink | src/bin/d11.rs:1-21 | one blink: each stone's rule result, in order (no ensures; BlinkAppend, BlinkLength and Stones.ApplyPart1Rules state it) |
| Day11.BlinkAppend | src/bin/d11.rs:1-21 | each stone is handled on its own: a blink over a + b is a blink over a then over b |
| Day11.BlinkLength | src/bin/d11.rs:1-21 | a blink adds one stone for every stone that splits |
| Day11.BlinksSplit | src/bin/d11.rs:33-39 | n blinks are n - 1 blinks followed by one |
| Day11.ParseStones | src/bin/d11.rs:26-30 | parsing succeeds exactly when every word between ASCII whitespace (split_ascii_whitespace, which does not split at a vertical tab) parses as a u64, and then gives one stone per word, in order, with the word's value |
| Day11.ParseStonesSeparators | src/bin/d11.rs:27 | `17 0\n` gives the stones 17 and 0; `1\x0B2` is one word, so the parse fails |
| Day11.SplitStonesExample | src/bin/d11.rs:27 | split_ascii_whitespace divides `17 0\n` into `17` and `0` |
| Day11.ParseStonesVerticalTab | src/bin/d11.rs:27 | `1\x0B2` is one word under split_ascii_whitespace, which does not parse as a u64 |
| Day11.BlinkSnoc | src/bin/d11.rs:3-20 | the blink of one more stone appends that stone's result |
| Day11.RestSplit | src/bin/d11.rs:3-20 | the stones from k on are stone k followed by the rest |
| Day11.Rewritten | src/bin/d11.rs:6-17 | overwriting the stone after the processed ones |
| Day11.Inserted | src/bin/d11.rs:13-14 | writing u over the stone and inserting l before it puts l, u in its place |
| Day11.Stones.constructor | src/bin/d11.rs:26-30 | the vector holds the initial stones |
| Day11.Stones.ApplyPart1Rules | src/bin/d11.rs:1-21 | apply_part1_rules replaces every stone by its rule's result, in order, and grows by the number of splits |
| Day11.Stones.Step | src/bin/d11.rs:4-19 | one pass of the loop replaces the stone at i by its rule's result and steps over it |
| Day11.Stones.BlinkTimes | src/bin/d11.rs:33-39 | main's loop applies n blinks in turn |
| Day11.Answer | src/bin/d11.rs:23-41 | None exactly when the input does not parse; otherwise the number of stones after 75 blinks |
| Day11.Ilog10Examples | src/bin/d11.rs:50-57 | the unit test of ilog10: 10, 9, 1, 100, 101, 1003 |
| Day11.ExampleBlink | src/bin/d11.rs:43 | the rules on the stones 0, 1, 10, 99 and 999 |
| Day11.ExampleSplit | src/bin/d11.rs:8-12 | 10 splits into 1 and 0, 99 into 9 and 9 |
| Day12.SameAlong | src/bin/d12.rs:92-94 | the neighbour along a direction is found exactly when it is on the grid and grows the same plant |
| Day12.SameDirs | src/bin/d12.rs:91-102 | the four directions looked at find every same-plant neighbour of a plot |
| Day12.ConnectedRefl | src/bin/d12.rs:86-88 | a plot is joined to itself, so the root starts its own region |
| Day12.ConnectedStep | src/bin/d12.rs:92-98 | a same-plant step extends a walk |
| Day12.ConnectedSymmetric | src/bin/d12.rs:81-107 | being joined by a walk is symmetric |
| Day12.WalkBack | src/bin/d12.rs:81-107 | a walk read backwards is a walk |
| Day12.ConnectedTransitive | src/bin/d12.rs:81-107 | being joined by a walk is transitive |
| Day12.RegionIsComponent | src/bin/d12.rs:81-107 | a region holds exactly the plots a walk reaches from any one of its plots |
| Day12.WalkStaysIn | src/bin/d12.rs:89-103 | a walk from inside a set closed under same-plant steps stays inside it |
| Day12.Union | src/bin/d12.rs:104 | the plots of all regions pushed so far (no ensures; UnionBounds states it) |
| Day12.UnionBounds | src/bin/d12.rs:104 | the union of the regions holds each region and nothing else |
| Day12.UnionAppend | src/bin/d12.rs:104 | pushing a region adds its plots to the union |
| Day12.PartitionExactlyOne | src/bin/d12.rs:81-107 | in a partition every cell of the garden is in exactly one region |
| Day12.Pick | src/bin/d12.rs:60 | some plot of a non-empty set, the next one a HashSet walk may yield: it is in the set |
| Day12.SumOverRemove | src/bin/d12.rs:60 | a sum over a HashSet does not depend on the order the set is walked |
| Day12.SumOverBound | src/bin/d12.rs:39-53 | a sum of terms at most b over a set is at most b times its size |
| Day12.FencesUpTo | src/bin/d12.rs:42-50 | at most one fence per direction looked at |
| Day12.Fences | src/bin/d12.rs:42-50 | a plot has at most 4 fences |
| Day12.FencesAlone | src/bin/d12.rs:42-50 | a plot alone has a fence on every side |
| Day12.PerimeterBound | src/bin/d12.rs:39-53 | the perimeter is at most four per plot |
| Day12.PerimeterSingle | src/bin/d12.rs:39-53 | a one-plot region has perimeter 4 |
| Day12.Neighbour | src/bin/d12.rs:68 | get(c, d, 1) is None exactly off the grid, else the plant there |
| Day12.Diagonal | src/bin/d12.rs:73 | next_pos then next_pos, when it succeeds, lands on the grid |
| Day12.CornerAt | src/bin/d12.rs:66-78 | the corrected rotation test: an outward corner, or an inward one whose diagonal cell holds another plant (no ensures) |
| Day12.CornerAtAsWritten | src/bin/d12.rs:71-76 | the rotation test as written: the inward case compares the diagonal position with c (no ensures; the Findings row for d12 states where it goes wrong) |
| Day12.CornersUpTo | src/bin/d12.rs:66-78 | at most one corner per rotation looked at |
| Day12.DiagonalNeverSelf | src/bin/d12.rs:73-74 | a diagonal step never returns to c, so the source's `x != Some(c)` always holds |
| Day12.AsWrittenCountsEveryInward | src/bin/d12.rs:68-77 | the source's test counts a rotation exactly when it is outward or inward, whatever the diagonal cell holds |
| Day12.CornersUpToAsWritten | src/bin/d12.rs:66-78 | with the source's test, at most one corner per rotation looked at |
| Day12.AsWrittenNeverFewer | src/bin/d12.rs:64-80 | the source's test accepts every rotation the corrected test does, so it never counts fewer corners |
| Day12.SidesAsWrittenNeverFewer | src/bin/d12.rs:59-80 | over any plots, the source's sides are never fewer than the region's sides |
| Day12.SumOverMono | src/bin/d12.rs:60 | a sum of smaller terms over a set is smaller |
| Day12.CornersSumAsWritten | src/bin/d12.rs:64-80 | the source's corner count is the sum over the four rotations |
| Day12.CornersAsWritten | src/bin/d12.rs:64-80 | corners as written, the inward case testing the diagonal position against c: the source's corner count of the plot, at most 4 |
| Day12.Region.SidesAsWritten | src/bin/d12.rs:59-61 | sides as written: the source's corner counts of its plots, summed |
| Day12.SidesSumNeverFewer | src/bin/d12.rs:147-150 | region by region, part2 as written never totals fewer sides than the corrected part2 |
| Day12.TotalSidesAsWritten | src/bin/d12.rs:132-151 | part2 as written: the sum of the source's sides over a partition of the garden into regions |
| Day12.SumSidesAsWritten | src/bin/d12.rs:149 | the sum of the regions' sides with the source's corner test |
| Day12.InwardDiagonal | src/bin/d12.rs:71-73 | on an inward rotation the diagonal cell is on the grid |
| Day12.CornersIsolated | src/bin/d12.rs:64-80 | a plot with no same-plant neighbour has four corners |
| Day12.UniformCorner | src/bin/d12.rs:64-80 | in a field of one plant a rotation is a corner exactly when both steps leave the grid; the source's test also counts it when both stay inside |
| Day12.CornersSum | src/bin/d12.rs:64-80 | the corner count is the sum over the four rotations |
| Day12.SquareInside | src/bin/d12.rs:64-80 | in a 2 by 2 field a step stays inside exactly when it moves to the other row or column |
| Day12.SquareCorners | src/bin/d12.rs:64-80 | in a 2 by 2 field of one plant every plot has one corner |
| Day12.SquareCornersAsWritten | src/bin/d12.rs:64-80 | the source's test gives every plot of that field two corners |
| Day12.SumOverSquare | src/bin/d12.rs:60 | a sum over the four plots of the 2 by 2 field |
| Day12.SquareSides | src/bin/d12.rs:59-61 | a 2 by 2 field of one plant has four sides |
| Day12.SquareSidesAsWritten | src/bin/d12.rs:59-80 | with the source's test that field has eight sides |
| Day12.SquareExample | src/bin/d12.rs:59-61 | the grid "AA" over "AA" is such a field |
| Day12.Corners | src/bin/d12.rs:64-80 | corrected corners, with the inward case testing the diagonal cell's plant: the corner count of the plot, at most 4 |
| Day12.RemoveSome | src/bin/d12.rs:5-12 | remove_some: None exactly on an empty set; otherwise a member, taken out of the set |
| Day12.Region.constructor | src/bin/d12.rs:21-25 | a new region holds its one plot and its code |
| Day12.Region.AddTo | src/bin/d12.rs:27-29 | adding a plot inserts it into the set |
| Day12.Region.Contains | src/bin/d12.rs:31-33 | membership of the plot set |
| Day12.Region.Area | src/bin/d12.rs:35-37 | the area is the number of plots |
| Day12.Region.Perimeter | src/bin/d12.rs:39-53 | perieter: the number of sides of plots facing no plot of the region, the grid's top and left edges included |
| Day12.Region.Price | src/bin/d12.rs:55-57 | price: area times perimeter |
| Day12.Region.Sides | src/bin/d12.rs:59-61 | corrected sides: the corrected corners of its plots, summed |
| Day12.Plots | src/bin/d12.rs:85 | the plot sets of the regions, in order |
| Day12.Neighbours | src/bin/d12.rs:92-94 | the same-plant neighbour along a direction, as a set of at most one plot |
| Day12.AroundContains | src/bin/d12.rs:91 | the neighbours looked at so far include each earlier direction's |
| Day12.Visit | src/bin/d12.rs:92-101 | one direction around e: a same-plant neighbour not yet in the region joins it and the stack, keeping the flood fill's invariant |
| Day12.ExploringAdd | src/bin/d12.rs:95-99 | adding such a neighbour keeps the flood fill's invariant and shrinks the roots |
| Day12.Explore | src/bin/d12.rs:87-103 | the inner loop: the plots found form a region of e0's plant, disjoint from the earlier regions, and the roots lose exactly those plots |
| Day12.Pop | src/bin/d12.rs:89-103 | one pass of the inner loop keeps its invariant and makes progress |
| Day12.LookedAround | src/bin/d12.rs:89-103 | once all four directions around e are looked at, e need not stay on the stack |
| Day12.RegionFound | src/bin/d12.rs:103-104 | with the stack empty the plots found are closed, connected and of one plant |
| Day12.Cells | src/bin/d12.rs:82-84 | the roots start as every cell of the grid |
| Day12.BuildRegions | src/bin/d12.rs:81-107 | build_regions: every cell is in exactly one region, each region connected, closed and growing only its code |
| Day12.BuildingDone | src/bin/d12.rs:86-106 | with no root left the regions partition the garden |
| Day12.Round | src/bin/d12.rs:86-105 | one pass of the outer loop keeps its invariant and takes out at least one root |
| Day12.SubsetSize | src/bin/d12.rs:96 | removing plots from the roots never makes the set larger |
| Day12.MirrorsAppend | src/bin/d12.rs:104 | pushing a region keeps the regions and their plot sets in step |
| Day12.BuildingStep | src/bin/d12.rs:86-105 | a new region and the next root keep the outer loop's invariant |
| Day12.AllRegionsAppend | src/bin/d12.rs:104 | pushing a region keeps every part a region |
| Day12.DisjointAppend | src/bin/d12.rs:104 | pushing a region disjoint from the union keeps the parts disjoint |
| Day12.ClosedUnion | src/bin/d12.rs:81-107 | the union of two closed sets is closed |
| Day12.SeededNext | src/bin/d12.rs:86 | the next root is in none of the regions found |
| Day12.SeededLast | src/bin/d12.rs:86 | with no root left every cell is in some region |
| Day12.BuildingStart | src/bin/d12.rs:82-86 | before the first region the roots are all cells but the one taken out |
| Day12.TotalPrice | src/bin/d12.rs:109-130 | part1: the sum of the prices of a partition of the garden into regions |
| Day12.SumPrices | src/bin/d12.rs:128 | the sum of the regions' prices |
| Day12.TotalSides | src/bin/d12.rs:132-151 | part2 corrected: the sum of the sides of a partition of the garden into regions |
| Day12.SumSides | src/bin/d12.rs:149 | corrected: the sum of the regions' corrected sides |
| Day13.Round | src/bin/d13.rs:76 | Ratio::round: a whole number at most one half from the value |
| Day13.RoundedIsInteger | src/bin/d13.rs:51-54 | close_enough on Ratio is equality, so a value is close to its rounding exactly when it is whole |
| Day13.Denominator | src/bin/d13.rs:73-74 | b_x - R * b_y is minus the determinant over a_y, zero exactly when the determinant is |
| Day13.Scaled | src/bin/d13.rs:73-74 | a non-zero multiple is zero exactly when the value is |
| Day13.Solves | src/bin/d13.rs:73-75 | the elimination of lines 73-75 solves both equations |
| Day13.Unique | src/bin/d13.rs:73-75 | with a non-zero determinant the equations have no other solution |
| Day13.PressesReal | src/bin/d13.rs:58-71 | an integer solution is a rational one and back |
| Day13.PlayGame | src/bin/d13.rs:56-89 | play_game: panics exactly when an input exceeds i64, and by division by zero exactly when a_y or the determinant is 0 |
| Day13.NeverNotInteger | src/bin/d13.rs:76-79 | the panic!() of line 79 is unreachable |
| Day13.PrizeSolves | src/bin/d13.rs:76-84 | a payout is 3 x + y for whole, non-negative presses x, y that reach the prize |
| Day13.PrizeFound | src/bin/d13.rs:56-89 | any whole solution is paid for by its cost, when that fits a u64 |
| Day13.NoneUnreachable | src/bin/d13.rs:85-88 | None means no whole number of presses reaches the prize |
| Day13.NegativeUnreachable | src/bin/d13.rs:81-82 | the failed u64 conversion means no non-negative presses reach the prize |
| Day13.Part2 | src/bin/d13.rs:95-100 | part2 is play_game on the prize moved by 10^13, or an overflow panic when that exceeds u64 |
| Day13.Total | src/bin/d13.rs:102-111 | main's sum: it succeeds exactly when no game panics, and a panic is some game's |
| Day13.TotalAppend | src/bin/d13.rs:105-109 | the sum over two runs of games is the sum of their sums |
| Day13.Examples | src/bin/d13.rs:113-129 | the first and third machines of the example are won for 280 and 200 tokens |
| Day13.SecondLost | src/bin/d13.rs:118-120 | the second machine of the example cannot be won |
| Day13.FourthLost | src/bin/d13.rs:126-128 | the fourth machine of the example cannot be won |
| Day14.Step | src/bin/d14.rs:96-99 | one second of one robot: rem_euclid keeps it on the floor and the velocity is unchanged |
| Day14.Move | src/bin/d14.rs:95-100 | every robot takes that step, and the order and number of robots are kept |
| Day14.MoveN | src/bin/d14.rs:57-62 | n seconds keep the number of robots |
| Day14.MoveBots | src/bin/d14.rs:95-100 | move_bots, in place: the vector becomes every robot after one step |
| Day14.ModAdd | src/bin/d14.rs:59-60 | wrapping before adding the velocity changes nothing |
| Day14.ModUnique | src/bin/d14.rs:59-60 | rem_euclid is the one remainder in [0, w) |
| Day14.MoveNClosedForm | src/bin/d14.rs:57-62 | after n seconds a robot is at (p + n v) rem_euclid the floor's size |
| Day14.Quadrant | src/bin/d14.rs:64-86 | no quadrant exactly on the middle column or row; otherwise (left of the middle, above the middle) |
| Day14.CountsAddUp | src/bin/d14.rs:66-91 | every robot is in exactly one quadrant or on a middle line |
| Day14.CountQuadrants | src/bin/d14.rs:63-91 | the map has an entry exactly for each quadrant with a robot, holding their number |
| Day14.SafetyFactor | src/bin/d14.rs:88-92 | the product of the robot counts of the quadrants that have a robot (no ensures; SafetyPositive states a bound) |
| Day14.SafetyPositive | src/bin/d14.rs:92 | an empty quadrant has no entry, so the product is never 0 |
| Day14.ProductIsSafety | src/bin/d14.rs:92 | the fold over the map's values is the product of the non-empty quadrants' counts |
| Day14.Part1 | src/bin/d14.rs:47-93 | part1: the robots after 100 moves on the 101 by 103 floor, and the product of the robots per non-empty quadrant |
| Day15.StateOf | src/bin/d15.rs:28-42 | From<u8> for State: the cell drawn with that byte |
| Day15.Glyph | src/bin/d15.rs:13-26 | Display draws every cell with a byte From<u8> accepts |
| Day15.StateOfGlyph | src/bin/d15.rs:13-42 | reading back a drawn cell gives the cell |
| Day15.Dir15Of | src/bin/d15.rs:47-61 | From<u8> for Dir15: an arrow gives the direction drawn by that arrow; None is the panic |
| Day15.Dir15OfArrow | src/bin/d15.rs:47-61 | every direction's arrow reads back as that direction |
| Day15.ParseMoves | src/bin/d15.rs:138-148 | None (the panic of From<u8>) exactly when some byte is neither an is_ascii_whitespace byte (form feed included) nor an arrow; otherwise at most one move per byte |
| Day15.Arrows | src/bin/d15.rs:47-61 | one arrow per move |
| Day15.ParseArrows | src/bin/d15.rs:138-148 | parsing the arrows of a move list gives the move list back |
| Day15.ParseMovesArrows | src/bin/d15.rs:138-148 | the moves parsed are, arrow for arrow and in order, the input with its is_ascii_whitespace bytes removed |
| Day15.Offset | src/bin/d15.rs:80-94 | the number of steps along the direction that reach a cell of the ray |
| Day15.AlongOnLine | src/bin/d15.rs:80-94 | the cell j steps out is on the line, j steps out |
| Day15.AlongBack | src/bin/d15.rs:112-121 | one step back (turned right twice) from j steps out is j - 1 steps out |
| Day15.PushableUnique | src/bin/d15.rs:70-108 | a push, when there is one, has one length |
| Day15.Unpushable | src/bin/d15.rs:95-100 | a run of boxes ending at the edge or at a wall cannot be pushed |
| Day15.ProbeNext | src/bin/d15.rs:82-100 | what the probe finds one step further: the edge or a wall rules out every push, an empty cell completes one, the robot is never met |
| Day15.ScanBoxes | src/bin/d15.rs:79-102 | the probe loop reports a push exactly when the run of boxes ends in an empty cell, and that push |
| Day15.CheckMovable | src/bin/d15.rs:70-108 | check_movable: Some exactly when the cell ahead is empty or starts a run of boxes ending in an empty cell, with that end; the Robot panics cannot fire |
| Day15.SwapCellAt | src/bin/d15.rs:115 | after the swap, each of the two cells holds the other's old content and every other cell is unchanged |
| Day15.SwapLineCell | src/bin/d15.rs:114-122 | after swapping the cells m and m - 1 out, the cell j out holds what the shifted line requires for every j |
| Day15.SwapStepLine | src/bin/d15.rs:114-122 | swapping the cells m and m - 1 out shifts the line one cell further |
| Day15.SwapStepOff | src/bin/d15.rs:114-122 | such a swap changes no cell off the line |
| Day15.SwapStep | src/bin/d15.rs:114-122 | one swap keeps move_items' partial shift |
| Day15.MoveLoopStart | src/bin/d15.rs:111-113 | the loop starts with to at the end and from one step behind it, on the grid |
| Day15.AfterSwap | src/bin/d15.rs:114-122 | after a swap the loop stops exactly when from is the start; otherwise the next from is one step further back |
| Day15.MoveItems | src/bin/d15.rs:110-124 | move_items: every cell of the line takes its predecessor's content, the start takes the empty end's, nothing else changes, and the robot's new cell is returned |
| Day15.ApplyDir | src/bin/d15.rs:125-130 | apply_dir: a pushable line is shifted and the robot moves one step, otherwise nothing changes; the new warehouse and robot cell are exactly Move's, and the cells' multiset is kept |
| Day15.MoveIs | src/bin/d15.rs:125-130 | where a push of length k exists, the move shifts that line and steps the robot |
| Day15.MovesStep | src/bin/d15.rs:154-158 | the fold over one more direction is that move applied to the fold so far |
| Day15.ShiftedIsShiftLine | src/bin/d15.rs:110-124 | a shift of a pushable line is determined: the warehouse after it is ShiftLine's |
| Day15.ShiftLineShifted | src/bin/d15.rs:110-124 | ShiftLine is a shift of the line, so the determined warehouse is a possible one |
| Day15.MovedIsMove | src/bin/d15.rs:125-130 | every outcome apply_dir may have is Move's, so one move has one result |
| Day15.MoveKeeps | src/bin/d15.rs:125-130 | Move keeps the size, the walls and a single robot, standing where Move puts it |
| Day15.MovesKeepWarehouse | src/bin/d15.rs:154-158 | the fold of Move over the moves keeps the size, the walls and a single robot, standing where the fold puts it |
| Day15.NoRobot | src/bin/d15.rs:149-152 | find_with reports no robot only when no cell holds one |
| Day15.LastRobotOnly | src/bin/d15.rs:149-152 | with at most one robot the cell popped from find_with is the only robot |
| Day15.MoveKeepsWarehouse | src/bin/d15.rs:125-130 | a move keeps the walls where they are and one robot, at the returned cell |
| Day15.OnLineCell | src/bin/d15.rs:110-124 | a shifted line holds no wall before or after, and the robot only one step from the start |
| Day15.Coords | src/bin/d15.rs:159-163 | the cells of the row-major positions, in order |
| Day15.SumScoresCoords | src/bin/d15.rs:159-163 | the GPS sum of those cells is 100 times each index's row plus its column |
| Day15.SumIdxSnoc | src/bin/d15.rs:162 | one more position adds 100 times its row plus its column |
| Day15.SumIdxMatching | src/bin/d15.rs:159-163 | summing over the box positions find_with reports is summing over the box cells |
| Day15.GpsIsBoxScore | src/bin/d15.rs:159-163 | the GPS sum is 100 times the row plus the column of every box |
| Day15.Part1 | src/bin/d15.rs:149-165 | main on a warehouse with one robot: None exactly when there is no robot; otherwise the final warehouse is the fold of Move over the moves from the robot find_with reports last, the answer is that warehouse's GPS sum, and the cells' multiset is kept |
| Day15.Gps | src/bin/d15.rs:159-163 | the sum of 100 times the row plus the column over the box cells find_with reports (no ensures; GpsIsBoxScore states it cell by cell) |
| Day16.StateOf | src/bin/d16.rs:12-26 | From<u8>: the tile drawn with that byte |
| Day16.StateOfSymbol | src/bin/d16.rs:12-26 | decoding the byte a tile is drawn with gives the tile back |
| Day16.Interior | src/bin/d16.rs:38 | in a maze enclosed by walls a tile that is not a wall has a neighbour on every side |
| Day16.Step | src/bin/d16.rs:38 | next_pos(...).unwrap() never panics there and is in_dir |
| Day16.TilesShrink | src/bin/d16.rs:42-43 | inserting an unvisited tile shrinks the tiles left to visit, so the search ends |
| Day16.KeepMax | src/bin/d16.rs:65 | `best.map(\|old_v\| v.max(old_v))`: None stays None, otherwise the larger value |
| Day16.Merge | src/bin/d16.rs:58-66 | a turn's result only updates a result already found, to it or the old one |
| Day16.MergeBounds | src/bin/d16.rs:58-66 | merging keeps the absence of a result and raises it to at least both values |
| Day16.BestPathFrom | src/bin/d16.rs:28-84 | best_path_from: None from a visited tile; a result exceeds the score so far |
| Day16.Branch | src/bin/d16.rs:44-82 | a branch's result exceeds the score plus the move's cost |
| Day16.BestPathSound | src/bin/d16.rs:28-84 | every result is the score plus the cost of a simple route through empty tiles that steps onto the end tile |
| Day16.BranchSound | src/bin/d16.rs:44-82 | a branch's result is the move's cost plus the cost of a route from the tile it leads to |
| Day16.BestPathBranches | src/bin/d16.rs:35-83 | the end tile ahead ends the search at score + 1; otherwise the straight branch's result raised by the turns', None when the straight branch is None |
| Day16.Solve | src/bin/d16.rs:86-100 | main: a result is the cost of a route from the first start tile, facing left |
| Day17.ThreeBitFromStr | src/bin/d17.rs:82-91 | ThreeBit::from_str: Ok exactly when the first character is a digit, holding that digit's low three bits; an empty text is the "no program" error |
| Day17.ThreeBitFrom | src/bin/d17.rs:75-80 | From<u32>: a value below 8 is kept, and in general the result differs from the value by a multiple of 8 (its low three bits) |
| Day17.ParseCombo | src/bin/d17.rs:105-118 | parse_combo: 0 to 3 are literals, 4 to 6 registers; the combo is written back as its operand |
| Day17.ComboRoundTrip | src/bin/d17.rs:105-118 | parse_combo reads back every combo operand's code |
| Day17.ParseInstruction | src/bin/d17.rs:119-131 | parse_instruction: the opcode table; BXC exactly for opcode 4, every other instruction written back as its opcode and operand |
| Day17.InstructionRoundTrip | src/bin/d17.rs:119-131 | writing an instruction down and parsing it gives it back |
| Day17.PairShift | src/bin/d17.rs:135 | the pairs after the first two numbers are the later pairs |
| Day17.ValidProgramTail | src/bin/d17.rs:133-142 | an accepted program starts with a valid pair and goes on with an accepted program |
| Day17.ParseInstructions | src/bin/d17.rs:133-142 | parse_instructions: one instruction per pair, in order |
| Day17.EncodeProgram | src/bin/d17.rs:133-142 | two numbers per instruction |
| Day17.ValidProgramCons | src/bin/d17.rs:133-142 | a valid pair before an accepted program is accepted |
| Day17.ProgramRoundTrip | src/bin/d17.rs:133-142 | writing a program down and parsing it gives the same instructions back |
| Day17.ConsRoundTrip | src/bin/d17.rs:133-142 | the round trip with one more instruction in front |
| Day17.ParseCons | src/bin/d17.rs:135-139 | a valid pair before a program parses as that pair's instruction, then the program |
| Day17.Init | src/bin/d17.rs:15-24 | MachineState::init: ip 0, the registers and source as given, one instruction per pair |
| Day17.DecodeOperand | src/bin/d17.rs:144-151 | decode_operand: a literal's value, or the register the combo names |
| Day17.Pow2 | src/bin/d17.rs:160 | 2.pow(n) is at least 1 |
| Day17.XorBelow | src/bin/d17.rs:164 | the exclusive or of two n-bit values has n bits, so it stays a usize |
| Day17.XorUnfold | src/bin/d17.rs:164 | the low bit and the remaining bits of an exclusive or |
| Day17.XorTwice | src/bin/d17.rs:164 | exclusive or with the same value twice changes nothing |
| Day17.ParityTwice | src/bin/d17.rs:164 | adding b twice to a parity gives it back |
| Day17.HalvesEqual | src/bin/d17.rs:164 | a number is fixed by its low bit and the rest |
| Day17.XorCommutes | src/bin/d17.rs:177 | the order of the operands of an exclusive or does not matter |
| Day17.Pow2Add | src/bin/d17.rs:160 | 2^(m+n) = 2^m 2^n |
| Day17.WordBits | src/bin/d17.rs:6 | a usize has 64 bits |
| Day17.XorWord | src/bin/d17.rs:164 | `^` on usize, undone by a second exclusive or |
| Day17.Quotient | src/bin/d17.rs:160 | dividing a usize by a positive number gives the quotient, a usize |
| Day17.DivNoLarger | src/bin/d17.rs:160 | a quotient is no larger than the dividend |
| Day17.Step | src/bin/d17.rs:156-194 | one instruction: the program stays, OUT prints one value below 8, a taken jump moves ip to its target printing nothing, every other instruction steps ip by one, and the panic is exactly a division by 2^64 or more |
| Day17.Run | src/bin/d17.rs:153-200 | a halted run has ip past the program, prints only values below 8, and a machine already past the end halts at once |
| Day17.RunFuelMonotone | src/bin/d17.rs:153-200 | a run that ends within some budget ends the same way with any larger one |
| Day17.PrependAppend | src/bin/d17.rs:181 | output printed in two parts is printed in order |
| Day17.RunToHalt | src/bin/d17.rs:153-200 | run_to_halt's loop computes the run, its final state and its output |
| Day17.ShiftIn | src/bin/d17.rs:210 | (a << 3) \| t on usize: low three bits t, the rest a without its top three bits |
| Day17.TryThis | src/bin/d17.rs:207-223 | try_this: a value found makes the machine print its own program |
| Day17.Part2 | src/bin/d17.rs:225-232 | part2: a value found makes the machine print its own program |
| Day17.ParseReg | src/bin/d17.rs:31-43 | parse_reg: Ok exactly when the tag is found and the text up to the line's end parses as a usize; all failures are "no register" |
| Day17.TextAfter | src/bin/d17.rs:32-40 | the text between the tag and the next newline; none when the tag is absent |
| Day17.ParseRegRoundTrip | src/bin/d17.rs:31-46 | a register line written at the start of the text reads back |
| Day17.TextAfterLine | src/bin/d17.rs:32-40 | after the first occurrence of the tag, the digits up to the newline |
| Day17.ParseRegAt | src/bin/d17.rs:31-43 | a register line is read back wherever it stands, as long as its tag does not occur before it |
| Day17.LineEnd | src/bin/d17.rs:36 | the first newline after a run of digits ends it |
| Day17.FindAt | src/bin/d17.rs:32 | find returns the first position where the pattern occurs |
| Day17.ParseNumbers | src/bin/d17.rs:50-54 | the collect of from_str over the pieces: Ok with one number per piece, or some piece's error |
| Day17.FromStr | src/bin/d17.rs:27-57 | MachineState::from_str: ip 0, a program parse_instructions accepts, parsed from the numbers; "no program" without the tag |
| Day17.FromStrReads | src/bin/d17.rs:44-55 | a machine read from a text holds, in each register, the number parse_reg reads for its tag, and as source the numbers after "Program: " |
| Day17.FromStrRoundTrip | src/bin/d17.rs:27-57 | reading a machine's text gives back its registers and program; an odd count or a combo operand 7 panics, and an empty program is "no program" |
| Day17.FromStrProgramRoundTrip | src/bin/d17.rs:27-57 | a non-empty program of well-formed instructions, written into a machine's text, reads back as the same instructions |
| Day17.ProgramTextParse | src/bin/d17.rs:50-54 | the program text splits into its one-digit pieces and each reads back; no number at all is "no program" |
| Day17.Pieces | src/bin/d17.rs:50-53 | one piece per number, its digit |
| Day17.NotAt | src/bin/d17.rs:32 | one mismatching character rules out an occurrence |
| Day17.RegLineChars | src/bin/d17.rs:44-46 | a register line holds 'R' only at its start, its register's letter at 9, and no 'P' |
| Day17.RegistersParse | src/bin/d17.rs:44-46 | the three register lines are each read back |
| Day17.RegisterAParse | src/bin/d17.rs:44 | register A's line starts the text |
| Day17.RegisterBParse | src/bin/d17.rs:45 | "Register B: " does not occur in A's line, so B's line is read back |
| Day17.RegisterCParse | src/bin/d17.rs:46 | "Register C: " occurs in neither earlier line, so C's line is read back |
| Day17.RegistersNoP | src/bin/d17.rs:47 | no 'P' occurs in the register lines |
| Day17.ProgramFound | src/bin/d17.rs:47-49 | "Program: " is found just after the register lines and the empty line |
| Day17.HalvingProgramParsed | src/bin/d17.rs:241-245 | 0,1,5,4,3,0 parses as adv 1; out A; jnz 0 |
| Day17.HalvingRound | src/bin/d17.rs:156-194 | one round of that program halves A, prints it mod 8, and jumps back while A is not 0 |
| Day17.PrependTwice | src/bin/d17.rs:181 | prepending nothing changes nothing |
| Day17.HalvingRuns | src/bin/d17.rs:153-200 | with enough fuel the halving program prints the halvings of A and halts |
| Day17.ExampleOutput | src/bin/d17.rs:241-245 | the first example prints 4,6,3,5,6,3,5,2,1,0 |
| Day17.ExampleHalvings | src/bin/d17.rs:241-245 | 729 is halved ten times before reaching 0 |
| Day17.HalvingOnce | src/bin/d17.rs:153-200 | one unfolding of the halvings |
| Day18.LeastExistsUpTo | src/bin/d18.rs:57-67 | a set of entries with one of cost at most n has one of least cost |
| Day18.LeastExists | src/bin/d18.rs:144 | a non-empty heap always has an entry of least cost to pop, since Ord reverses the costs |
| Day18.Neighbors | src/bin/d18.rs:69-96 | neighbors: at most four positions, each one step away and not corrupted; for a position in the grid, exactly the in-grid, uncorrupted neighbours |
| Day18.H | src/bin/d18.rs:135 | h: the Manhattan distance to the goal plus 2, as it measures from one past the goal; between 2 and WIDTH + HEIGHT, so it fits a u32 |
| Day18.ReachesStart | src/bin/d18.rs:136-139 | the start is reached in 0 moves |
| Day18.ReachesStep | src/bin/d18.rs:149-151 | one move more reaches a neighbour in one step more |
| Day18.RescoredReach | src/bin/d18.rs:155-157 | rescoring with the length of a real walk keeps every score a walk length |
| Day18.PushedReach | src/bin/d18.rs:160-162 | pushing an entry keeps every open cost a walk length |
| Day18.PushedUnique | src/bin/d18.rs:160-162 | the `any` test keeps at most one open entry per position |
| Day18.GoalStaysOpen | src/bin/d18.rs:155-162 | a scored goal stays open |
| Day18.ScoredAfterUpdate | src/bin/d18.rs:155-163 | rescoring a position and pushing it unless open keeps the search's facts |
| Day18.SettledGrows | src/bin/d18.rs:144-165 | a settled position stays settled as more positions are scored and opened |
| Day18.RowOf | src/bin/d18.rs:98-99 | one grid row up to column w has w positions |
| Day18.Box | src/bin/d18.rs:98-99 | the first h rows up to column w have at most w * h positions |
| Day18.BoxCard | src/bin/d18.rs:98-99 | a set inside that box has at most w * h members |
| Day18.GridCard | src/bin/d18.rs:98-99 | a set of grid positions has at most 71 * 71 members |
| Day18.SettledAfterUpdate | src/bin/d18.rs:155-163 | rescoring n keeps every other position settled |
| Day18.BoundedAfterUpdate | src/bin/d18.rs:150-157 | a score one more than current's stays below the number of scored positions, so never reaches u32::MAX |
| Day18.UpdateKeepsRelaxInv | src/bin/d18.rs:155-163 | the update of a neighbour keeps the relaxation's invariant |
| Day18.RelaxOne | src/bin/d18.rs:150-163 | one neighbour: it ends up scored, scores only go down, the open set only grows, and the invariant is kept |
| Day18.RelaxDone | src/bin/d18.rs:149-164 | once every neighbour is scored, current is settled |
| Day18.CoveredGrows | src/bin/d18.rs:149-164 | the neighbours scored so far stay scored |
| Day18.Relax | src/bin/d18.rs:149-164 | the neighbour loop restores the search's invariant |
| Day18.ClosedHoldsWalks | src/bin/d18.rs:144-166 | a scored set closed under moves holds the end of every walk from the start |
| Day18.NotConnected | src/bin/d18.rs:166 | when the open set runs dry no walk reaches the goal |
| Day18.ShortestPath | src/bin/d18.rs:132-167 | shortest_path: a cost found is the length of a walk to the goal; None means no walk reaches it |
| Day18.InitialSearchInv | src/bin/d18.rs:134-142 | the search starts with the start scored 0 and open |
| Day18.OpenReaches | src/bin/d18.rs:147 | the cost of an open entry is the length of a walk to it |
| Day18.LeavesRelaxInv | src/bin/d18.rs:144-149 | popping a non-goal entry leaves the relaxation's invariant for it |
| Day18.Corrupted | src/bin/d18.rs:201-207 | the first corruptions and the next n |
| Day18.Part2 | src/bin/d18.rs:190-216 | part2: the reported corruption is the first after which no walk reaches the goal |
| Day18.ParsePos | src/bin/d18.rs:191-197 | parse_pos: two u8 values; None (a panic) when the text has no comma |
| Day18.ParsePosRoundTrip | src/bin/d18.rs:191-197 | a position below 256 in each coordinate, written "x,y", is read back |
| Day19.Flat | src/bin/d19.rs:12-14 | no patterns lay out the empty word |
| Day19.FlatAppend | src/bin/d19.rs:12-14 | two lists of patterns laid out one after the other |
| Day19.FlatSnoc | src/bin/d19.rs:12-14 | one more pattern appends it to the layout |
| Day19.Words | src/bin/d19.rs:13 | the patterns the saved indices name, in order |
| Day19.StepAsWritten | src/bin/d19.rs:9-36 | one pass of try_match as written: true exactly at the word's end, false when the patterns are used up with nothing saved, and a push records the position and a pattern that fits there |
| Day19.WellFormedSteps | src/bin/d19.rs:9-36 | every saved choice stays a position inside the word and an existing pattern, as written and corrected |
| Day19.BacktrackNoUnderflow | src/bin/d19.rs:22-26 | `vocab.len() - 1` and `word.len() - 1` never underflow |
| Day19.AsWrittenAcceptsAaa | src/bin/d19.rs:3-38 | as written, the word "aaa" with the one pattern "aa" is accepted, so main counts 1 design instead of 0 |
| Day19.FlatEven | src/bin/d19.rs:3-38 | copies of "aa" lay out a word of even length |
| Day19.AaaNotTileable | src/bin/d19.rs:3-38 | "aaa" cannot be laid out with "aa" |
| Day19.Step | src/bin/d19.rs:9-36 | the corrected pass: true exactly at the word's end, false exactly when the patterns are used up with nothing saved, a push records a fitting pattern |
| Day19.Choices | src/bin/d19.rs:13 | the pattern indices of the saved choices |
| Day19.ChainLaysOut | src/bin/d19.rs:12-16 | the saved choices lay out exactly the word up to i |
| Day19.StepKeepsChain | src/bin/d19.rs:9-36 | the corrected pass keeps that: a push extends it, a pop shortens it |
| Day19.RunAsWritten | src/bin/d19.rs:3-38 | try_match as written, one pass of the labelled loop per unit of fuel (no ensures; the Findings row for d19 states where it goes wrong) |
| Day19.Run | src/bin/d19.rs:3-38 | the corrected matcher, one pass per unit of fuel (no ensures; RunSound and RunComplete state its meaning) |
| Day19.RunSound | src/bin/d19.rs:37 | a yes means the word is a concatenation of patterns |
| Day19.Front | src/bin/d19.rs:10-25 | the search frontier: the saved choices, then the pattern to try next |
| Day19.FrontPrefix | src/bin/d19.rs:10-25 | before its last slot the frontier is the saved choices |
| Day19.FlatSplit | src/bin/d19.rs:12-14 | a layout is its first k patterns, pattern k, and the rest |
| Day19.WordsPrefix | src/bin/d19.rs:13 | the patterns of a prefix of the indices are the prefix of the patterns |
| Day19.PrefixAt | src/bin/d19.rs:12 | a middle part of a word starts the word's rest at its position |
| Day19.NextFits | src/bin/d19.rs:12 | a tiling starting with the saved choices continues with a pattern that fits at i |
| Day19.NotYetTiled | src/bin/d19.rs:9 | before the word's end the saved choices are not a whole tiling |
| Day19.Exhausted | src/bin/d19.rs:21-25 | with every pattern tried at i no tiling starts with the saved choices |
| Day19.ExploreNoFit | src/bin/d19.rs:17-19 | moving past a pattern that does not fit passes no tiling |
| Day19.ExplorePush | src/bin/d19.rs:13-16 | pushing a choice moves the frontier forward without passing a tiling |
| Day19.ChoicesPop | src/bin/d19.rs:21 | popping drops the last choice |
| Day19.PopFrontier | src/bin/d19.rs:21-25 | after a used-up choice the frontier moves to that slot's next pattern |
| Day19.ExplorePop | src/bin/d19.rs:21-25 | popping a used-up choice passes no tiling |
| Day19.StepExplores | src/bin/d19.rs:9-36 | the corrected pass keeps every tiling at or after the frontier |
| Day19.ExploreOne | src/bin/d19.rs:9-36 | one tiling at or after the frontier stays there |
| Day19.StartExplored | src/bin/d19.rs:5-7 | the search starts at position 0, pattern 0, nothing saved, nothing ruled out |
| Day19.RunComplete | src/bin/d19.rs:31-34 | a no means the word cannot be laid out |
| Day19.RejectsAaa | src/bin/d19.rs:3-38 | the corrected matcher rejects "aaa" with "aa" |
| Day19.EmptyWord | src/bin/d19.rs:9 | the empty word is accepted at once, as written and corrected |
| Day19.Advance | src/bin/d19.rs:10-35 | one pass of the loops, as the corrected step |
| Day19.TryMatch | src/bin/d19.rs:3-38 | try_match corrected: the run of the matcher; true exactly when the word is a concatenation of patterns |
| Day19.InsertByLength | src/bin/d19.rs:47 | placing a pattern among patterns: the same patterns plus the new one, headed by the new one or the old head |
| Day19.InsertKeepsOrder | src/bin/d19.rs:47 | placing a pattern among patterns sorted longest first keeps them longest first |
| Day19.InsertBounded | src/bin/d19.rs:47 | placing a pattern no longer than m among patterns no longer than m keeps every pattern no longer than m |
| Day19.SortLongestFirst | src/bin/d19.rs:47 | `sort_by` on descending length: the same patterns, each at least as long as every later one |
| Day19.TileableSamePatterns | src/bin/d19.rs:47 | whether a design can be laid out depends only on which patterns there are, so sorting them changes no answer |
| Day19.CountRun | src/bin/d19.rs:51 | corrected: the filter's count with the corrected matcher: None exactly when the matcher runs out of fuel on some design; otherwise at most the number of designs |
| Day19.CountRunTileable | src/bin/d19.rs:51 | corrected: where the count is found, it is the number of designs that are concatenations of patterns |
| Day19.TileableCountSorted | src/bin/d19.rs:47-51 | the sorted patterns lay out exactly the designs the given patterns do |
| Day19.CountDesigns | src/bin/d19.rs:44-53 | main corrected: the count over the sorted patterns, which when found is the number of designs that are concatenations of the given patterns |
| Day19.TryMatchAsWritten | src/bin/d19.rs:3-38 | try_match as written: the run of the matcher as written, for at most fuel passes |
| Day19.CountRunAsWritten | src/bin/d19.rs:51 | the filter's count with try_match as written: None exactly when a match runs out of fuel; otherwise at most the number of designs |
| Day19.CountDesignsAsWritten | src/bin/d19.rs:44-53 | main as written: the count over the sorted patterns with try_match as written |
| Day19.CountAaa | src/bin/d19.rs:44-53 | with the pattern "aa" and the design "aaa", main as written counts 1, the corrected count is 0, and no design can be laid out |
| Day20.PointOf | src/bin/d20.rs:17-27 | From<u8>: the tile drawn with that byte |
| Day20.PointOfSymbol | src/bin/d20.rs:17-27 | decoding the byte a tile is drawn with gives the tile back |
| Day20.ManhattanLen | src/bin/d20.rs:177-179 | manhattan_len is 0 exactly between equal cells |
| Day20.ManhattanSymmetric | src/bin/d20.rs:177-179 | the distance is symmetric |
| Day20.ManhattanTriangle | src/bin/d20.rs:177-179 | the distance obeys the triangle inequality |
| Day20.InDirDistance | src/bin/d20.rs:177-179 | one step in a direction is at distance 1 |
| Day20.PathDistance | src/bin/d20.rs:198-204 | on a traced path, tiles j - i apart on the path are at most j - i apart, so `j - i - manhattan_len` never underflows |
| Day20.StepsOf | src/bin/d20.rs:78-107 | the step table of a path, the last step on each tile (no ensures; StepsOfKeys and StepsOfIndex state it) |
| Day20.StepsOfKeys | src/bin/d20.rs:78-107 | the step table has an entry for exactly the path's tiles |
| Day20.StepsOfIndex | src/bin/d20.rs:78-107 | a tile's step is the last step at which the path is on it |
| Day20.GridSides | src/utils.rs:126-143 | a non-empty well-formed grid has a positive width and height |
| Day20.FirstDir | src/bin/d20.rs:40-57 | the first loop of trace_path in place gives exactly FirstDirOf: a direction found leads to an open tile; None where the loop panics |
| Day20.NewDir | src/bin/d20.rs:85-105 | the turn in place gives exactly NewDirOf: a side of the heading whose tile is open or the end; None where it panics |
| Day20.Beside | src/bin/d20.rs:40-57 | the tile next to c in direction d: present exactly when next_pos is, and then the tile there |
| Day20.PickFromMeans | src/bin/d20.rs:40-57 | the direction loops from dirs[k] on, with what they knew so far, take d exactly when d is the only exit among all of dirs |
| Day20.PickMeans | src/bin/d20.rs:40-57 | a direction loop over distinct directions takes d exactly when d's tile is one it takes and every other direction holds a wall or is off the grid |
| Day20.FirstDirOfMeans | src/bin/d20.rs:40-57 | the start is left by d exactly when d's neighbour is open and every other neighbour is a wall or off the grid, so no open neighbour, two, or a start or end tile beside the start is a panic |
| Day20.NewDirOfMeans | src/bin/d20.rs:85-105 | the turn takes d exactly when d is left or right of the heading, its tile is open or the end, and the other side holds a wall or is off the grid |
| Day20.NewDirOfNone | src/bin/d20.rs:85-105 | the turn panics exactly at a dead end, at two ways out, or beside a start tile |
| Day20.TurnsDiffer | src/utils.rs:84-91 | left, right, the heading and its opposite are four different directions, and the opposite of a side is the other side |
| Day20.DirAround | src/utils.rs:84-91 | every direction is the heading, one of its sides, or its opposite |
| Day20.NextPosBack | src/utils.rs:171-178 | a step always leaves the tile, and stepping back the opposite way undoes it |
| Day20.NextPosInjective | src/utils.rs:171-178 | two directions that lead to the same neighbour are the same |
| Day20.StepsOfAppend | src/bin/d20.rs:77-78 | recording the current tile's step before moving on |
| Day20.TracePath | src/bin/d20.rs:29-109 | trace_path gives exactly TraceOf; a traced path starts at the last start tile, ends at the last end tile, moves one tile at a time into open or end tiles, and its step table is the path's |
| Day20.Walk | src/bin/d20.rs:58-108 | the walking loop in place gives exactly WalkFrom from the start, so a traced path is a walk of adjacent enterable tiles from start to end with its step table (WalkFromWalked); otherwise a panic or out of fuel |
| Day20.WalkOn | src/bin/d20.rs:61-105 | one round of the loop with its bookkeeping: a panic where the reference walk panics, else what remains of the reference walk with the path ending at the new tile and the step table of the tiles left behind |
| Day20.WalkRound | src/bin/d20.rs:63-105 | one round: a panic where the reference walk panics, a turn in place, or a step onto an in-grid tile, each leaving what remains of the reference walk |
| Day20.WalkArrive | src/bin/d20.rs:107-108 | at the end the walk is traced: the path and the step table with the end's step recorded |
| Day20.WalkFromAhead | src/bin/d20.rs:63-81 | with an open or end tile ahead and no fork the walk steps onto it |
| Day20.WalkFromFork | src/bin/d20.rs:68-76 | with an open or end tile ahead and an unvisited open tile to a side the walk panics |
| Day20.WalkFromTurn | src/bin/d20.rs:85-105 | without a tile to step onto ahead the walk turns as new_dir says, or panics when there is no single way to turn |
| Day20.TraceFromWalked | src/bin/d20.rs:29-109 | a traced track is a walk of adjacent enterable tiles from start to end, with its step table |
| Day20.TraceFromNoRepeats | src/bin/d20.rs:29-109 | with one end tile a traced track visits no tile twice and records step k for path[k] |
| Day20.AheadNoRepeats | src/bin/d20.rs:63-81 | a step straight on keeps a traced path free of repeats |
| Day20.TurnNoRepeats | src/bin/d20.rs:85-105 | a turn keeps a traced path free of repeats |
| Day20.WalkFromWalked | src/bin/d20.rs:58-108 | a walk that reaches the end is a walk of adjacent enterable tiles from its start, with its step table |
| Day20.TraceOfSpec | src/bin/d20.rs:29-109 | a traced track runs from the last start tile to the last end tile through adjacent enterable tiles, with its step table |
| Day20.NoRepeatsSteps | src/bin/d20.rs:77-78 | on a path without repeats, every tile's recorded step is its place on the path |
| Day20.OneEndOf | src/utils.rs:147-162 | when find_with reports one end tile, it is the grid's only end tile |
| Day20.StepIsNew | src/bin/d20.rs:58-84 | a step straight on in a walk that kept its facts never enters a tile already on the path: the tile behind is not ahead, and a tile left earlier has no open neighbour off the path but its neighbours on it |
| Day20.LeftBehindAt | src/bin/d20.rs:64-73 | what the walk saw at a tile it left, at one neighbour |
| Day20.LeftBehindLast | src/bin/d20.rs:64-79 | a step straight on that passes the fork test leaves a tile with no open neighbour off the path but the tiles before and after it |
| Day20.LeftBehindGrow | src/bin/d20.rs:77-79 | the tiles left earlier keep what the walk saw there as the path grows |
| Day20.StepKeeps | src/bin/d20.rs:58-84 | a step straight on that passes the fork test keeps the walk's facts: adjacent enterable tiles, one end tile, no repeats |
| Day20.TurnKeeps | src/bin/d20.rs:85-105 | a turn keeps the walk's facts: the new heading is a side of the arrival, with the tile behind passed over |
| Day20.WalkFromNoRepeats | src/bin/d20.rs:58-108 | along the walking loop, with one end tile, a traced path never repeats a tile |
| Day20.TraceOfNoRepeats | src/bin/d20.rs:29-109 | on a grid with at most one end tile a traced track visits no tile twice, and the step recorded for path[k] is k |
| Day20.WalkedAppend | src/bin/d20.rs:77-79 | a step into an adjacent enterable tile extends the walk |
| Day20.Pow5 | src/bin/d20.rs:116-128 | the worklist's weight per entry is positive |
| Day20.WeightAppend | src/bin/d20.rs:123 | pushing an entry adds its weight |
| Day20.PushOne | src/bin/d20.rs:121-125 | pushing one more neighbour keeps the pushed entries' facts and weight |
| Day20.PushNeighbours | src/bin/d20.rs:119-127 | the inner loop pushes every in-grid neighbour not yet a target, with one step less, and weighs less than the entry it replaces |
| Day20.EveryDirection | src/bin/d20.rs:120 | what holds of up, left, down and right holds of every direction |
| Day20.PushedWithin | src/bin/d20.rs:119-127 | entries pushed stay within the distance of `from` |
| Day20.NeighboursPop | src/bin/d20.rs:116-117 | popping keeps every neighbour of `from` a target or pending |
| Day20.NeighboursFirst | src/bin/d20.rs:115-127 | the first round pushes every neighbour of `from` |
| Day20.PendingExtend | src/bin/d20.rs:116-127 | popping and pushing keeps every pending cell within the distance |
| Day20.VisitTop | src/bin/d20.rs:116-127 | one round keeps the worklist's invariant and lowers its weight |
| Day20.PossibleJumps | src/bin/d20.rs:111-131 | possible_jumps: every target is in the grid, not `from`, and within the distance; with a positive distance every neighbour of `from` is one |
| Day20.Regroup | src/bin/d20.rs:206-209 | regrouping multiset sums |
| Day20.SumUpToSplit | src/bin/d20.rs:198-218 | the loop's accumulation up to j plus the rest is the whole sum |
| Day20.SumUpToWhole | src/bin/d20.rs:198-218 | the loop's accumulation from nothing is the sum |
| Day20.SumMember | src/bin/d20.rs:198-218 | a value is in the sum exactly when it is in one of its terms |
| Day20.SavingAt | src/bin/d20.rs:200-216 | at most one saving per pair |
| Day20.SavingAtCheat | src/bin/d20.rs:200-216 | a saving is recorded for a pair exactly when the pair is a cheat saving that much |
| Day20.RowsAt | src/bin/d20.rs:198 | the row of tile i is its savings against the later tiles |
| Day20.RowSavingsCheats | src/bin/d20.rs:199-217 | a saving is recorded against path[a] exactly when some cheat from it saves that much |
| Day20.AllSavingsMember | src/bin/d20.rs:198-218 | a saving is in the total exactly when it is in some row |
| Day20.RowsCheats | src/bin/d20.rs:199-217 | a row holds a saving exactly when a cheat from that tile saves it |
| Day20.AllSavingsCheats | src/bin/d20.rs:198-218 | a saving is counted exactly when some cheat along the path saves that much |
| Day20.Bump | src/bin/d20.rs:206-209 | entry(v).and_modify(+1).or_insert(1) counts one more v |
| Day20.CountPair | src/bin/d20.rs:200-216 | one pair adds its saving, if any, to the histogram |
| Day20.CountRow | src/bin/d20.rs:199-217 | the inner loop adds tile i's savings |
| Day20.Part2Savings | src/bin/d20.rs:195-218 | save_hash counts every cheat's saving; it has an entry exactly for the savings some cheat achieves |
| Day20.Part1Savings | src/bin/d20.rs:147-170 | every saving save_hash records is counted at least once and is a cheat's |
| Day20.Cheat1Indices | src/bin/d20.rs:147-170 | on a track without repeats, a part 1 cheat saving v is a jump within the distance from one tile of the path to one 2 + v places further on |
| Day20.ProcessPart1 | src/bin/d20.rs:133-175 | process_part1: Some exactly when trace_path traces the track; every saving in the histogram is counted at least once and is a part 1 cheat along that very track |
| Day20.ProcessPart2 | src/bin/d20.rs:181-225 | process_part2: Some exactly when trace_path traces the track; the histogram counts exactly the savings of all cheats along that very track, with an entry exactly for the savings some cheat achieves |

## Left out

Input, output and platform:
- All file and console I/O is left out: `read_to_string`, `println!` and `print!`. The `main` drivers that only read and print are modelled only where they compute an answer.
- Regex-based parsers are left out because they call a foreign library. Their results are taken as given inputs. These are `D1::from` (`src/bin/d1.rs`), `Part1Game::from_str` (`src/bin/d13.rs`) and `Bot::from_str` (`src/bin/d14.rs`). The line parsing of `src/d2.rs` and `src/bin/d5.rs` is left out too.
- Rendering is left out: `display_all`, `display_at`, the `Display` impls except where a lemma uses them, `d9`'s `dump_data` and HTML dump, and `d18`'s `dump`.
- `d14` part2 is left out: it is an interactive raylib window with floating-point timing.
- The `f64` `CloseEnough` impl of `d13` is left out: `play_game` uses only the `Ratio` impl, modelled with exact `real` arithmetic.
- `src/bin/d8.rs` and `src/bin/d21.rs` are not modelled: both are unfinished stubs that compute nothing. Neither are `benches/day16.rs` (a benchmark harness) or `src/main.rs` (module declarations).

Library behaviour and choices:
- `HashSet` and `HashMap` are sets and maps. Where their iteration order matters, the order is left open. `remove_some` in `d12` takes whichever member the set holds. The sum over a region's plots is an order-independent sum.
- `BinaryHeap` is modelled as a set of entries, popped at least cost.
- `BasicGrid::swap` has no definition in `src/utils.rs`. It is modelled as exchanging two cells (`Utils.BasicGrid.Swap`).
- `Dir::turn_left` has no definition in `src/utils.rs`. It is modelled as the inverse of `turn_right` (`Utils.TurnLeft`).
- `BasicGrid::new_default` is used only by a test in `src/bin/d20.rs` and is not modelled.
- These calls in `src/d4.rs`, `src/bin/d10.rs` and `src/bin/d19.rs` do not match any definition in the source. Each is given its evident meaning:
  - `d4`'s matchers call `self` without a receiver; they take the grid as an argument.
  - `d10` passes an `Option<Coord>` where a `Coord` is expected; it is unwrapped.
  - `d19`'s `main` calls `try_match` without the `memo` argument; the memo is never read and is dropped.
- The test `test_move` of `src/utils.rs` is not modelled.
- The `d16` search starts facing `Left`, as `main` does at `src/bin/d16.rs:98`. Other versions of the puzzle code start facing `Right`. The model follows this file. It also follows the file's recursive search, which combines branches with `max`, rather than a least-cost frontier search.

Integer widths:
- `u64`, `u32` and `usize` overflow is not modelled outside the places named above. This covers `d3`'s `u32` product and sum, `d7`'s `u64` accumulator, `d9`'s `u16` file ids and `u64` checksum, `d11`'s `* 2024`, `d14`'s `i16` positions, `d18`'s `u32` costs, `d10`'s `u16` ratings and their `u16` sum (`src/bin/d10.rs:53`, `81`, `86`) and `d13`'s `u64` sum in `main`.
- `Day2.IsSafe1`: the `i32` conversion of the levels is a precondition (`Fits`), not a modelled panic. The same holds for `Day2.Safe2`, `Day2.IsSafe2`, `Day2.CountSafe1`, `Day2.CountSafe2` and `Day2.Run2`, whose reports must all fit (`AllFit`).
- `Day4.MatchesRight`, `Day4.MatchesLeft` and the other `d4` matchers compute their bounds guards on unbounded integers. The `usize` underflow of `width - cnt` is not modelled.
- `Day13.PlayGame`: the intermediate rational arithmetic of `Ratio<i64>` is exact. An overflow inside `Ratio` is not modelled.
- `Day17.ThreeBitFrom`: `& 0o7` is modelled as `% 8`, which is the same for values below 256.

Deliberately weaker contracts:
- `Day16.BestPathFrom`: requires the maze to be closed by walls. Otherwise `next_pos(...).unwrap()` panics. The result is proved to be the cost of a real route, not the least cost. The source combines branches with `max` and drops a turn's result when the straight branch found nothing, so no optimality holds.
- `Day16.Solve`: proved sound only, for the same reason.
- `Day18.ShortestPath`: a cost found is proved to be the length of a real walk, and `None` is proved to mean no walk reaches the goal. That the cost is the least is not proved. The heap orders entries by `cost` alone (`src/bin/d18.rs:56-66`), and `h` only fills `fScore` and the entry's unused `h` field. With unit steps, the search therefore pops entries in non-decreasing cost, which makes the first goal pop the least. The model does not carry that ordering of pops through the run.
- `Day20.PossibleJumps`: every target is proved to be within the distance, and every neighbour of `from` is proved to be a target. That every cell within the distance is a target is not proved: the `!targets.contains` test can stop a cell reached late with more distance left from being explored further.
- `Day20.Part1Savings`: proved sound only. Every recorded saving is a real cheat, but not every cheat is proved to be recorded.
- `Day20.ProcessPart1`: proved sound only, as it is built on `Day20.Part1Savings` and `Day20.PossibleJumps`. Every saving in the histogram is a real cheat along the traced track, but that every cheat within the distance is counted, and how often, is not proved, because `possible_jumps` is not proved to reach every cell within the distance.
- `Day7.Part1ImpliesPart2`: states that part2 never answers false where part1 answers true, and answers true when every number is positive. Where a number is 0, `check_part2` panics on `ilog10(0)` instead, as `Day7.Part2PanicsOnZero` exhibits with `9: 3 3 0`.
- `Day5.Part1`: requires every update to be non-empty (likewise `Day5.SumMiddles` and `Day5.SumBroken`), because `l[l.len() / 2]` panics on an empty update. A rule-breaking update is never empty, so `Day5.Part2` needs no such precondition.
- `Day19.TryMatch`, `Day19.CountDesigns`, `Day19.TryMatchAsWritten`, `Day19.CountDesignsAsWritten`, `Day17.RunToHalt`, `Day17.TryThis`, `Day17.Part2`, `Day18.ShortestPath`, `Day6.Part1`, `Day6.Part2`, `Day5.Order`, `Day5.Run2`, `Day20.TracePath` and `Day20.Walk` run on a fuel budget. A budget that is too small gives no answer (`None`, `OutOfFuel` in `d18`, which `shortest_path` itself never returns) where the source has one; `Day5.Order` and `Day6.Part1` instead report that the loop did not finish (`ordered` false, `left` false). `Day5.Part2More` and `Day6.Walk2More` show that an answer, once given, does not change with more fuel.
- `Day4.CountMatches`: requires `g.Valid()`, a data length of width times height. `Grid::new` (`src/d4.rs:8-21`) also accepts lines of different lengths, whose grids are not covered.
- `Day15.Part1`: requires at most one robot (`OneRobotAtMost`). The source accepts several '@' cells and starts from the one `find_with` reports; `check_movable` then panics on meeting another robot (`src/bin/d15.rs:96`, `103`). Grids with several robots are not covered.
- `Day9.Part1`: this is the corrected part1 (see Findings). On a disk with free cells but no file cell, such as the map "02", the source's `last_used -= 1` underflows (`src/bin/d9.rs:40-42`) and panics; the corrected part1 returns the checksum of the unchanged disk there, while `Day9.Part1AsWritten` returns None as the source panics.
- `Day9.Part1`, `Day9.Part1AsWritten` and `Day9.Part2Checksum` take the disk map after `trim`. A byte that is not a digit is a precondition (`AllDigits`), not the `*b - 48` underflow.
- `Day20.TraceOfNoRepeats`: proved only for grids with at most one end tile. The fork test looks only at open tiles, so a second end tile beside the track could be entered again.
- `Day19.SortLongestFirst`: the result is proved to be a longest-first permutation of the patterns; that the sort is stable among patterns of equal length is not stated. The design count does not depend on pattern order (`Day19.TileableSamePatterns`).
- The parsing of `d19`'s patterns and designs (`split(',')` and `trim`, `src/bin/d19.rs:42-46`) is left out; both are given inputs.
- `Day19.TryMatch` and `Day19.TryMatchAsWritten` work on characters where the source slices bytes (`word[i..]`, `vocab[v].len()`). The two agree on ASCII text, which the puzzle input is; a slice inside a multi-byte character, which panics in the source, is not modelled.
- `Day4.New` measures a line's width in characters, where `BasicGrid::new` uses its length in bytes. The two agree on ASCII grids, which every puzzle uses.
- `d18` part2 reads the positions line by line (`src/bin/d18.rs:199-204`). `Day18.ParsePos` models `parse_pos`, and `Day18.Part2` takes the parsed positions as its input.

## Findings

| source | as written | input that shows it | evidently intended | confidence | as-written member | corrected member |
|---|---|---|---|---|---|---|
| src/bin/d9.rs:28-44 | `last_used` starts at the last cell even when that cell is free, and the loop never moves it past trailing free cells, so compaction stops early | the disk map "1121", which expands to `0 . 1 1 .` and stays `0 . 1 1 .`: checksum 5 instead of 3 | every file cell ends before every free cell | not executed | Day9.CompactAsWritten, Day9.Part1AsWritten, Day9.TrailingGapDisk, Day9.TrailingGapNotCompacted, Day9.TrailingGapChecksums | Day9.Compact, Day9.CompactingCompacts, Day9.Part1Compact, Day9.Part1DiskCompacted, Day9.Part1 |
| src/bin/d12.rs:71-76 | the inward-corner test checks `next_pos(next_pos(c, d1), d2) != Some(c)`, which always holds, instead of testing the diagonal cell's plant | the region "AA" over "AA", given 8 sides instead of 4 | count an inward corner only when the diagonal cell grows another plant | not executed | Day12.AsWrittenCountsEveryInward, Day12.CornersAsWritten, Day12.Region.SidesAsWritten, Day12.TotalSidesAsWritten, Day12.SquareCornersAsWritten, Day12.SquareSidesAsWritten | Day12.Corners, Day12.Region.Sides, Day12.TotalSides, Day12.SumSides, Day12.SquareCorners, Day12.SquareSides |
| src/d2.rs:56-70 | `Part2::is_safe` calls `Part1::is_safe` on the report and on `v`, one level shorter; `Part1::is_safe` panics on fewer than two levels | the report `1 5` (and `7`) panics | a report of at most two levels is safe once a level is removed | not executed | Day2.IsSafe2, Day2.ShortReportsPanic, Day2.Safe2AsWritten | Day2.Safe2Fixed, Day2.CountSafe2Fixed |
| src/bin/d19.rs:26-29 | when the popped choice was the last pattern, the matcher resumes one character after it instead of backtracking further, skipping a character | the word "aaa" with the one pattern "aa" is accepted | backtrack to the previous choice, so that true means the word is a concatenation of patterns | not executed | Day19.StepAsWritten, Day19.TryMatchAsWritten, Day19.CountDesignsAsWritten, Day19.AsWrittenAcceptsAaa, Day19.CountAaa, Day19.AaaNotTileable | Day19.Step, Day19.TryMatch, Day19.RunSound, Day19.RunComplete, Day19.RejectsAaa, Day19.CountRun, Day19.CountRunTileable, Day19.CountDesigns |
