/**
 * src/bin/d17.rs: the three-bit computer. A program is a list of three-bit
 * numbers read in pairs (opcode, operand); the machine has three registers
 * the width of a usize (64 bits here) and an instruction pointer, and
 * appends the low three bits of a value to its output on OUT. The search
 * try_this builds a value for register A three bits at a time so that the
 * program prints itself.
 */
module Day17 {
  import opened Wrappers
  import opened Text

  /** usize is 64 bits wide. */
  const WORD: nat := 0x1_0000_0000_0000_0000

  type Word = x: nat | x < WORD

  type ThreeBit = x: nat | x < 8

  /**
   * From<u32> for ThreeBit: the value must fit a u8 (the conversion panics
   * otherwise), and masking with 0o7 keeps its low three bits, that is its
   * remainder modulo 8.
   */
  function ThreeBitFrom(value: nat): (t: ThreeBit)
    requires value < 256
    ensures value < 8 ==> t == value
    ensures (value - t) % 8 == 0
  {
    value % 8
  }

  /** The errors of MachineState::from_str; a panic on the way is reported as Panicked. */
  datatype ParseError = NoRegister | NoProgram | Panicked

  /**
   * ThreeBit::from_str: the first character of the text, which must be a
   * decimal digit (anything else panics); an empty text is an error.
   */
  function ThreeBitFromStr(s: string): (r: Result<ThreeBit, ParseError>)
    ensures r.Ok? <==> |s| > 0 && IsDigit(s[0])
    ensures r.Ok? ==> r.value == DigitValue(s[0]) % 8
    ensures |s| == 0 ==> r == Err(NoProgram)
  {
    if |s| == 0 then Err(NoProgram)
    else if !IsDigit(s[0]) then Err(Panicked)
    else Ok(ThreeBitFrom(DigitValue(s[0])))
  }

  datatype Combo = Literal(value: nat) | RegA | RegB | RegC

  datatype Op =
    | ADV(combo: Combo)
    | BXL(literal: ThreeBit)
    | BST(combo: Combo)
    | JNZ(target: ThreeBit)
    | BXC
    | OUT(combo: Combo)
    | BDV(combo: Combo)
    | CDV(combo: Combo)

  /** The operand code of a combo operand. */
  function ComboCode(c: Combo): ThreeBit
    requires c.Literal? ==> c.value < 4
  {
    match c
    case Literal(v) => v
    case RegA => 4
    case RegB => 5
    case RegC => 6
  }

  /** parse_combo: 0 to 3 are literals, 4, 5 and 6 name a register; 7 panics. */
  function ParseCombo(operand: ThreeBit): (c: Combo)
    requires operand != 7
    ensures c.Literal? ==> c.value < 4
    ensures ComboCode(c) == operand
  {
    if operand < 4 then Literal(operand)
    else if operand == 4 then RegA
    else if operand == 5 then RegB
    else RegC
  }

  lemma {:induction false} ComboRoundTrip(c: Combo)
    requires c.Literal? ==> c.value < 4
    ensures ComboCode(c) != 7 && ParseCombo(ComboCode(c)) == c
  {
  }

  /** The opcodes whose operand is a combo operand. */
  predicate UsesCombo(opcode: ThreeBit) {
    opcode == 0 || opcode == 2 || opcode == 5 || opcode == 6 || opcode == 7
  }

  /** An instruction as parse_instruction builds them: combo literals are below 4. */
  predicate WellFormed(op: Op) {
    HasCombo(op) ==> (op.combo.Literal? ==> op.combo.value < 4)
  }

  predicate HasCombo(op: Op) {
    op.ADV? || op.BST? || op.OUT? || op.BDV? || op.CDV?
  }

  /** The opcode and operand an instruction is written as. */
  function Encode(op: Op): (ThreeBit, ThreeBit)
    requires WellFormed(op)
  {
    match op
    case ADV(c) => (0, ComboCode(c))
    case BXL(t) => (1, t)
    case BST(c) => (2, ComboCode(c))
    case JNZ(t) => (3, t)
    case BXC => (4, 0)
    case OUT(c) => (5, ComboCode(c))
    case BDV(c) => (6, ComboCode(c))
    case CDV(c) => (7, ComboCode(c))
  }

  /** parse_instruction: the opcode table. */
  function ParseInstruction(opcode: ThreeBit, operand: ThreeBit): (op: Op)
    requires UsesCombo(opcode) ==> operand != 7
    ensures WellFormed(op)
    ensures op.BXC? || Encode(op) == (opcode, operand)
    ensures op.BXC? <==> opcode == 4
  {
    match opcode
    case 0 => ADV(ParseCombo(operand))
    case 1 => BXL(operand)
    case 2 => BST(ParseCombo(operand))
    case 3 => JNZ(operand)
    case 4 => BXC
    case 5 => OUT(ParseCombo(operand))
    case 6 => BDV(ParseCombo(operand))
    case 7 => CDV(ParseCombo(operand))
  }

  /** Writing an instruction down and reading it back gives it back. */
  lemma {:induction false} InstructionRoundTrip(op: Op)
    requires WellFormed(op)
    ensures var (opcode, operand) := Encode(op);
      (UsesCombo(opcode) ==> operand != 7) && ParseInstruction(opcode, operand) == op
  {
    if HasCombo(op) {
      ComboRoundTrip(op.combo);
    }
  }

  /** A program parse_instructions accepts: whole pairs, and no combo operand 7. */
  predicate ValidProgram(items: seq<ThreeBit>) {
    |items| % 2 == 0 &&
    forall k :: 0 <= k < |items| / 2 ==> (UsesCombo(items[2 * k]) ==> items[2 * k + 1] != 7)
  }

  lemma {:induction false} PairShift(items: seq<ThreeBit>, k: nat)
    requires 1 <= k && 2 * k + 1 < |items|
    ensures items[2..][2 * (k - 1)] == items[2 * k] && items[2..][2 * (k - 1) + 1] == items[2 * k + 1]
  {
  }

  /** A valid program starts with a valid pair and goes on with a valid program. */
  lemma {:induction false} ValidProgramTail(items: seq<ThreeBit>)
    requires ValidProgram(items) && |items| > 0
    ensures |items| >= 2 && (UsesCombo(items[0]) ==> items[1] != 7)
    ensures ValidProgram(items[2..]) && |items[2..]| / 2 == |items| / 2 - 1
  {
    assert 2 * 0 == 0;
    var rest := items[2..];
    forall k | 0 <= k < |rest| / 2 ensures UsesCombo(rest[2 * k]) ==> rest[2 * k + 1] != 7 {
      PairShift(items, k + 1);
    }
  }

  /** parse_instructions: one instruction per pair of numbers, in order. */
  function ParseInstructions(items: seq<ThreeBit>): (r: seq<Op>)
    requires ValidProgram(items)
    ensures |r| == |items| / 2
    ensures forall k :: 0 <= k < |r| ==> r[k] == ParseInstruction(items[2 * k], items[2 * k + 1])
    decreases |items|
  {
    if |items| == 0 then []
    else
      ValidProgramTail(items);
      var rest := items[2..];
      var tail := ParseInstructions(rest);
      var r := [ParseInstruction(items[0], items[1])] + tail;
      assert forall k :: 1 <= k < |r| ==> r[k] == ParseInstruction(items[2 * k], items[2 * k + 1]) by {
        forall k | 1 <= k < |r| ensures r[k] == ParseInstruction(items[2 * k], items[2 * k + 1]) {
          PairShift(items, k);
        }
      }
      r
  }

  function EncodeProgram(ops: seq<Op>): (items: seq<ThreeBit>)
    requires forall k :: 0 <= k < |ops| ==> WellFormed(ops[k])
    ensures |items| == 2 * |ops|
  {
    if |ops| == 0 then [] else [Encode(ops[0]).0, Encode(ops[0]).1] + EncodeProgram(ops[1..])
  }

  /** A valid pair in front of a valid program is a valid program. */
  lemma {:induction false} ValidProgramCons(x: ThreeBit, y: ThreeBit, rest: seq<ThreeBit>)
    requires (UsesCombo(x) ==> y != 7) && ValidProgram(rest)
    ensures ValidProgram([x, y] + rest) && ([x, y] + rest)[2..] == rest
  {
    var items := [x, y] + rest;
    assert items[2..] == rest;
    forall k | 0 <= k < |items| / 2 ensures UsesCombo(items[2 * k]) ==> items[2 * k + 1] != 7 {
      if k > 0 {
        PairShift(items, k);
      }
    }
  }

  /** Writing a program down and parsing it gives the same instructions back. */
  lemma {:induction false} ProgramRoundTrip(ops: seq<Op>)
    requires forall k :: 0 <= k < |ops| ==> WellFormed(ops[k])
    ensures ValidProgram(EncodeProgram(ops)) && ParseInstructions(EncodeProgram(ops)) == ops
  {
    if |ops| > 0 {
      var tail := ops[1..];
      ProgramRoundTrip(tail);
      ConsRoundTrip(ops[0], tail);
      assert ops == [ops[0]] + tail;
    }
  }

  /** The induction step of ProgramRoundTrip: one more instruction in front. */
  lemma {:induction false} ConsRoundTrip(op: Op, tail: seq<Op>)
    requires WellFormed(op) && forall k :: 0 <= k < |tail| ==> WellFormed(tail[k])
    requires ValidProgram(EncodeProgram(tail)) && ParseInstructions(EncodeProgram(tail)) == tail
    ensures forall k :: 0 <= k < |[op] + tail| ==> WellFormed(([op] + tail)[k])
    ensures ValidProgram(EncodeProgram([op] + tail)) && ParseInstructions(EncodeProgram([op] + tail)) == [op] + tail
  {
    var ops := [op] + tail;
    assert ops[1..] == tail;
    var x := Encode(op).0;
    var y := Encode(op).1;
    InstructionRoundTrip(op);
    ParseCons(x, y, EncodeProgram(tail));
    assert EncodeProgram(ops) == [x, y] + EncodeProgram(tail);
  }

  /** Parsing a valid pair in front of a valid program parses the pair, then the program. */
  lemma {:induction false} ParseCons(x: ThreeBit, y: ThreeBit, rest: seq<ThreeBit>)
    requires (UsesCombo(x) ==> y != 7) && ValidProgram(rest)
    ensures ValidProgram([x, y] + rest)
    ensures ParseInstructions([x, y] + rest) == [ParseInstruction(x, y)] + ParseInstructions(rest)
  {
    ValidProgramCons(x, y, rest);
  }

  /** The machine: three registers, the instruction pointer, the program as numbers and as instructions. */
  datatype MachineState = MachineState(regA: Word, regB: Word, regC: Word, ip: nat, source: seq<ThreeBit>, program: seq<Op>)

  /** MachineState::init. */
  function Init(a: Word, b: Word, c: Word, source: seq<ThreeBit>): (ms: MachineState)
    requires ValidProgram(source)
    ensures ms.ip == 0 && |ms.program| == |source| / 2
    ensures ms.regA == a && ms.regB == b && ms.regC == c && ms.source == source
    ensures forall k :: 0 <= k < |ms.program| ==> WellFormed(ms.program[k])
  {
    MachineState(a, b, c, 0, source, ParseInstructions(source))
  }

  /** decode_operand: a literal, or the register the combo names. */
  function DecodeOperand(ms: MachineState, c: Combo): (v: nat)
    ensures c.Literal? ==> v == c.value
    ensures c.RegA? ==> v == ms.regA
    ensures c.RegB? ==> v == ms.regB
    ensures c.RegC? ==> v == ms.regC
  {
    match c
    case Literal(l) => l
    case RegA => ms.regA
    case RegB => ms.regB
    case RegC => ms.regC
  }

  function Pow2(n: nat): (p: nat)
    ensures p >= 1
  {
    if n == 0 then 1 else 2 * Pow2(n - 1)
  }

  /** The bitwise exclusive or, bit by bit from the least significant. */
  function Xor(a: nat, b: nat): (r: nat)
    decreases a + b
  {
    if a == 0 && b == 0 then 0 else (a + b) % 2 + 2 * Xor(a / 2, b / 2)
  }

  /** Two values of n bits have an exclusive or of n bits. */
  lemma {:induction false} XorBelow(a: nat, b: nat, n: nat)
    requires a < Pow2(n) && b < Pow2(n)
    ensures Xor(a, b) < Pow2(n)
    decreases n
  {
    if n > 0 && !(a == 0 && b == 0) {
      XorBelow(a / 2, b / 2, n - 1);
    }
  }

  /** The low bit of an exclusive or, and the exclusive or of the remaining bits. */
  lemma {:induction false} XorUnfold(a: nat, b: nat)
    ensures Xor(a, b) % 2 == (a + b) % 2 && Xor(a, b) / 2 == Xor(a / 2, b / 2)
  {
    if !(a == 0 && b == 0) {
      var lo := (a + b) % 2;
      var hi := Xor(a / 2, b / 2);
      assert Xor(a, b) == lo + 2 * hi;
      assert 0 <= lo < 2;
      assert (lo + 2 * hi) % 2 == lo && (lo + 2 * hi) / 2 == hi;
    }
  }

  /** Exclusive or with the same value twice changes nothing. */
  lemma {:induction false} XorTwice(a: nat, b: nat)
    ensures Xor(Xor(a, b), b) == a
    decreases a + b
  {
    if !(a == 0 && b == 0) {
      var x := Xor(a, b);
      XorUnfold(a, b);
      XorUnfold(x, b);
      XorTwice(a / 2, b / 2);
      var y := Xor(x, b);
      ParityTwice(a, b, x);
      HalvesEqual(y, a);
    }
  }

  /** Adding b twice to the parity of a gives back the parity of a. */
  lemma {:induction false} ParityTwice(a: nat, b: nat, x: nat)
    requires x % 2 == (a + b) % 2
    ensures (x + b) % 2 == a % 2
  {
  }

  /** A number is fixed by its low bit and the rest. */
  lemma {:induction false} HalvesEqual(y: nat, a: nat)
    requires y % 2 == a % 2 && y / 2 == a / 2
    ensures y == a
  {
  }

  /** The order of the operands does not matter. */
  lemma {:induction false} XorCommutes(a: nat, b: nat)
    ensures Xor(a, b) == Xor(b, a)
    decreases a + b
  {
    if !(a == 0 && b == 0) {
      XorCommutes(a / 2, b / 2);
    }
  }

  lemma {:induction false} Pow2Add(m: nat, n: nat)
    ensures Pow2(m + n) == Pow2(m) * Pow2(n)
    decreases m
  {
    if m > 0 {
      Pow2Add(m - 1, n);
    }
  }

  lemma {:induction false} WordBits()
    ensures Pow2(64) == WORD
  {
    assert Pow2(8) == 256;
    Pow2Add(8, 8);
    Pow2Add(16, 16);
    Pow2Add(32, 32);
  }

  /** The exclusive or of two usize values. */
  function XorWord(a: Word, b: Word): (r: Word)
    ensures Xor(r, b) == a
  {
    WordBits();
    XorBelow(a, b, 64);
    XorTwice(a, b);
    Xor(a, b)
  }

  /** What one instruction does: the next state and what it printed, or a panic. */
  datatype Outcome = Continue(next: MachineState, emitted: seq<nat>) | Panic

  /**
   * The division instructions: the operand is converted to u32 and
   * 2.pow(operand) must fit a usize; from 64 on it panics.
   */
  function Shifted(ms: MachineState, c: Combo): Option<Word> {
    var v := DecodeOperand(ms, c);
    if v >= 64 then None else Some(Quotient(ms.regA, Pow2(v)))
  }

  /** Division of a word by a positive number stays a word. */
  function Quotient(a: Word, d: nat): (q: Word)
    requires d >= 1
    ensures q == a / d
  {
    DivNoLarger(a, d);
    a / d
  }

  lemma {:induction false} DivNoLarger(a: nat, d: nat)
    requires d >= 1
    ensures a / d <= a
  {
  }

  /** One execution of the instruction at ip (the body of the loop in run_to_halt). */
  function Step(ms: MachineState): (r: Outcome)
    requires ms.ip < |ms.program|
    ensures r.Continue? ==> r.next.program == ms.program && r.next.source == ms.source
    ensures r.Continue? ==> |r.emitted| <= 1 && forall k :: 0 <= k < |r.emitted| ==> r.emitted[k] < 8
    ensures r.Continue? && !(ms.program[ms.ip].JNZ? && ms.regA != 0) ==> r.next.ip == ms.ip + 1
    ensures ms.program[ms.ip].JNZ? && ms.regA != 0 ==> r == Continue(ms.(ip := ms.program[ms.ip].target), [])
    ensures r.Panic? <==> (ms.program[ms.ip].ADV? || ms.program[ms.ip].BDV? || ms.program[ms.ip].CDV?) &&
                          DecodeOperand(ms, ms.program[ms.ip].combo) >= 64
    ensures r.Continue? && |r.emitted| == 1 ==>
      ms.program[ms.ip].OUT? && r.emitted[0] == DecodeOperand(ms, ms.program[ms.ip].combo) % 8
  {
    var next := ms.(ip := ms.ip + 1);
    match ms.program[ms.ip]
    case ADV(c) =>
      (match Shifted(ms, c) case None => Panic case Some(d) => Continue(next.(regA := d), []))
    case BXL(t) => Continue(next.(regB := XorWord(ms.regB, t)), [])
    case BST(c) => Continue(next.(regB := DecodeOperand(ms, c) % 8), [])
    case JNZ(t) => if ms.regA != 0 then Continue(ms.(ip := t), []) else Continue(next, [])
    case BXC => Continue(next.(regB := XorWord(ms.regB, ms.regC)), [])
    case OUT(c) => Continue(next, [DecodeOperand(ms, c) % 8])
    case BDV(c) =>
      (match Shifted(ms, c) case None => Panic case Some(d) => Continue(next.(regB := d), []))
    case CDV(c) =>
      (match Shifted(ms, c) case None => Panic case Some(d) => Continue(next.(regC := d), []))
  }

  /**
   * How a run ends: the instruction pointer left the program (with the
   * final state and the output), an instruction panicked, or the step
   * budget ran out before either.
   */
  datatype RunResult = Halted(final: MachineState, output: seq<nat>) | Crashed | OutOfFuel

  /** Output printed before a run's result. */
  function Prepend(out: seq<nat>, r: RunResult): RunResult {
    match r
    case Halted(f, o) => Halted(f, out + o)
    case _ => r
  }

  /** At most fuel instructions of run_to_halt. */
  function Run(ms: MachineState, fuel: nat): (r: RunResult)
    ensures r.Halted? ==> r.final.ip >= |ms.program| && r.final.program == ms.program && r.final.source == ms.source
    ensures r.Halted? ==> forall k :: 0 <= k < |r.output| ==> r.output[k] < 8
    ensures ms.ip >= |ms.program| ==> r == Halted(ms, [])
    decreases fuel
  {
    if ms.ip >= |ms.program| then Halted(ms, [])
    else if fuel == 0 then OutOfFuel
    else
      match Step(ms)
      case Panic => Crashed
      case Continue(next, e) => Prepend(e, Run(next, fuel - 1))
  }

  /** A run that ends within some budget ends the same way with any larger budget. */
  lemma {:induction false} RunFuelMonotone(ms: MachineState, fuel: nat, more: nat)
    requires !Run(ms, fuel).OutOfFuel? && fuel <= more
    ensures Run(ms, more) == Run(ms, fuel)
    decreases fuel
  {
    if ms.ip < |ms.program| && fuel > 0 {
      match Step(ms)
      case Panic =>
      case Continue(next, e) =>
        RunFuelMonotone(next, fuel - 1, more - 1);
    }
  }

  lemma {:induction false} PrependAppend(a: seq<nat>, b: seq<nat>, r: RunResult)
    ensures Prepend(a, Prepend(b, r)) == Prepend(a + b, r)
  {
    if r.Halted? {
      assert a + (b + r.output) == (a + b) + r.output;
    }
  }

  /**
   * run_to_halt: execute instructions until ip leaves the program, pushing
   * every OUT value; at most fuel instructions are executed.
   */
  method RunToHalt(ms0: MachineState, fuel: nat) returns (res: RunResult)
    ensures res == Run(ms0, fuel)
  {
    var ms := ms0;
    var r: seq<nat> := [];
    var f := fuel;
    while ms.ip < |ms.program|
      invariant Run(ms0, fuel) == Prepend(r, Run(ms, f))
      decreases f
    {
      if f == 0 {
        return OutOfFuel;
      }
      match Step(ms)
      case Panic =>
        return Crashed;
      case Continue(next, e) =>
        PrependAppend(r, e, Run(next, f - 1));
        r := r + e;
        ms := next;
        f := f - 1;
    }
    assert Run(ms, f) == Halted(ms, []);
    assert r + [] == r;
    return Halted(ms, r);
  }

  /** (a << 3) | t on a usize: the three low bits are t and the rest is a without its top three bits. */
  function ShiftIn(a: Word, t: ThreeBit): (r: Word)
    ensures r % 8 == t && r / 8 == a % (WORD / 8)
  {
    (a * 8) % WORD + t
  }

  /** The result of try_this: a value found, none found, or a run that panicked or exceeded the budget. */
  datatype Search = Found(a: Word) | NotFound | Aborted

  /**
   * try_this: for t from 0 to 7, run the machine with A set to (a << 3) | t;
   * when it prints the program from idx on, either stop (idx 0) or extend
   * the value by the next three bits.
   */
  method TryThis(ms: MachineState, a: Word, idx: nat, fuel: nat) returns (r: Search)
    requires idx < |ms.source|
    ensures r.Found? ==> Run(ms.(regA := r.a), fuel).Halted? && Run(ms.(regA := r.a), fuel).output == ms.source
    decreases idx
  {
    for t := 0 to 8 {
      var candidate := ShiftIn(a, t);
      var res := RunToHalt(ms.(regA := candidate), fuel);
      if !res.Halted? {
        return Aborted;
      }
      if res.output == ms.source[idx..] {
        if idx == 0 {
          assert ms.source[0..] == ms.source;
          return Found(candidate);
        }
        var sub := TryThis(ms, candidate, idx - 1, fuel);
        if !sub.NotFound? {
          return sub;
        }
      }
    }
    return NotFound;
  }

  /** part2: search from the last number of the program. */
  method Part2(ms: MachineState, fuel: nat) returns (r: Search)
    requires |ms.source| > 0
    ensures r.Found? ==> Run(ms.(regA := r.a), fuel).Halted? && Run(ms.(regA := r.a), fuel).output == ms.source
  {
    r := TryThis(ms, 0, |ms.source| - 1, fuel);
  }

  /** parse_reg: the number between the tag and the end of its line. */
  function ParseReg(s: string, tag: string): (r: Result<Word, ParseError>)
    ensures r.Err? ==> r.error == NoRegister
    ensures r.Ok? <==> TextAfter(s, tag).Some? && ParseUnsigned(TextAfter(s, tag).value, WORD - 1).Some?
  {
    match TextAfter(s, tag)
    case None => Err(NoRegister)
    case Some(text) =>
      match ParseUnsigned(text, WORD - 1)
      case None => Err(NoRegister)
      case Some(v) => Ok(v)
  }

  /** The text between the first occurrence of tag and the next newline. */
  function TextAfter(s: string, tag: string): (r: Option<string>)
    ensures Find(s, tag).None? ==> r.None?
    ensures r.Some? ==> '\n' !in r.value
  {
    match Find(s, tag)
    case None => None
    case Some(i) =>
      var i := i + |tag|;
      match Find(s[i..], "\n")
      case None => None
      case Some(endl) =>
        var line := s[i..i + endl];
        assert '\n' !in line by {
          FindSpec(s[i..], "\n");
          forall j | 0 <= j < |line| ensures line[j] != '\n' {
            assert s[i..][j..j + 1][0] == line[j];
            assert !OccursAt(s[i..], "\n", j);
          }
        }
        Some(line)
  }

  /** A register line written at the start of the text is read back. */
  lemma {:induction false} ParseRegRoundTrip(tag: string, n: Word, rest: string)
    ensures ParseReg(tag + Digits(n) + "\n" + rest, tag) == Ok(n)
  {
    assert "" + RegLine(tag, n) + rest == tag + Digits(n) + "\n" + rest;
    ParseRegAt("", tag, n, rest);
  }

  /** The line to_string and a newline make of register tag holding n. */
  function RegLine(tag: string, n: nat): string {
    tag + Digits(n) + "\n"
  }

  /** A register line is read back wherever it stands, as long as its tag does not occur before it. */
  lemma {:induction false} ParseRegAt(pre: string, tag: string, n: Word, rest: string)
    requires forall j :: 0 <= j < |pre| ==> !OccursAt(pre + RegLine(tag, n) + rest, tag, j)
    ensures ParseReg(pre + RegLine(tag, n) + rest, tag) == Ok(n)
  {
    var d := Digits(n);
    assert pre + RegLine(tag, n) + rest == pre + tag + (d + "\n" + rest);
    TextAfterLine(pre, tag, d, rest);
    DigitsRoundTrip(n, WORD - 1);
  }

  lemma {:induction false} TextAfterLine(pre: string, tag: string, d: string, rest: string)
    requires AllDigits(d)
    requires forall j :: 0 <= j < |pre| ==> !OccursAt(pre + tag + (d + "\n" + rest), tag, j)
    ensures TextAfter(pre + tag + (d + "\n" + rest), tag) == Some(d)
  {
    var t := d + "\n" + rest;
    var s := pre + tag + t;
    var i := |pre| + |tag|;
    assert s[|pre|..i] == tag;
    FindAt(s, tag, |pre|);
    assert s[i..] == t;
    LineEnd(d, rest);
    assert s[i..i + |d|] == d;
  }

  /** The first newline after a run of digits is the one that ends it. */
  lemma {:induction false} LineEnd(d: string, rest: string)
    requires AllDigits(d)
    ensures Find(d + "\n" + rest, "\n") == Some(|d|)
  {
    var t := d + "\n" + rest;
    assert t[|d|..|d| + 1] == "\n";
    forall j | 0 <= j < |d| ensures !OccursAt(t, "\n", j) {
      assert t[j..j + 1][0] == d[j];
    }
    FindAt(t, "\n", |d|);
  }

  /** find returns a position at which the pattern occurs when every earlier one fails. */
  lemma {:induction false} FindAt(s: string, pat: string, i: nat)
    requires OccursAt(s, pat, i) && forall j :: 0 <= j < i ==> !OccursAt(s, pat, j)
    ensures Find(s, pat) == Some(i)
  {
    FindSpec(s, pat);
  }

  /**
   * The program text: pieces between commas, each read by
   * ThreeBit::from_str; the first failing piece decides the error.
   */
  function ParseNumbers(pieces: seq<string>): (r: Result<seq<ThreeBit>, ParseError>)
    ensures r.Ok? ==>
      |r.value| == |pieces| && forall k :: 0 <= k < |pieces| ==> ThreeBitFromStr(pieces[k]) == Ok(r.value[k])
    ensures r.Err? ==> exists k :: 0 <= k < |pieces| && ThreeBitFromStr(pieces[k]) == Err(r.error)
  {
    if |pieces| == 0 then Ok([])
    else
      match ThreeBitFromStr(pieces[0])
      case Err(e) => Err(e)
      case Ok(t) =>
        match ParseNumbers(pieces[1..])
        case Err(e) =>
          assert exists k :: 0 <= k < |pieces| - 1 && ThreeBitFromStr(pieces[1..][k]) == Err(e);
          var k :| 0 <= k < |pieces| - 1 && ThreeBitFromStr(pieces[1..][k]) == Err(e);
          assert ThreeBitFromStr(pieces[k + 1]) == Err(e);
          Err(e)
        case Ok(ts) => Ok([t] + ts)
  }

  /**
   * MachineState::from_str: the three registers, then the numbers after
   * "Program: ". Building the machine panics on an odd count of numbers or
   * on a combo operand 7.
   */
  function FromStr(s: string): (r: Result<MachineState, ParseError>)
    ensures r.Ok? ==> r.value.ip == 0 && ValidProgram(r.value.source) && r.value.program == ParseInstructions(r.value.source)
    ensures Find(s, ProgramTag).None? ==>
      r.Err? && (r.error == NoRegister || r.error == NoProgram)
  {
    match ParseReg(s, TagA)
    case Err(e) => Err(e)
    case Ok(a) =>
      match ParseReg(s, TagB)
      case Err(e) => Err(e)
      case Ok(b) =>
        match ParseReg(s, TagC)
        case Err(e) => Err(e)
        case Ok(c) =>
          match Find(s, ProgramTag)
          case None => Err(NoProgram)
          case Some(i) =>
            match ParseNumbers(Split(s[i + 9..], ','))
            case Err(e) => Err(e)
            case Ok(v) =>
              if ValidProgram(v) then Ok(Init(a, b, c, v)) else Err(Panicked)
  }

  /**
   * What a machine read from a text holds: each register the number on
   * its tag's line, and as source the numbers after the first "Program: ".
   */
  lemma {:induction false} FromStrReads(s: string)
    ensures FromStr(s).Ok? ==>
      ParseReg(s, TagA) == Ok(FromStr(s).value.regA) && ParseReg(s, TagB) == Ok(FromStr(s).value.regB) &&
      ParseReg(s, TagC) == Ok(FromStr(s).value.regC)
    ensures FromStr(s).Ok? ==>
      Find(s, ProgramTag).Some? &&
      ParseNumbers(Split(s[Find(s, ProgramTag).value + |ProgramTag|..], ',')) == Ok(FromStr(s).value.source)
  {
  }

  const TagA := "Register A: "
  const TagB := "Register B: "
  const TagC := "Register C: "
  const ProgramTag := "Program: "

  /** The puzzle text of a machine: the three register lines, an empty line, the program. */
  function MachineText(a: Word, b: Word, c: Word, items: seq<ThreeBit>): string {
    Registers(a, b, c) + "\n" + ProgramTag + ProgramText(items)
  }

  function Registers(a: Word, b: Word, c: Word): string {
    RegLine(TagA, a) + RegLine(TagB, b) + RegLine(TagC, c)
  }

  /** The program's numbers, one digit each, separated by commas. */
  function ProgramText(items: seq<ThreeBit>): string {
    Join(Pieces(items), ',')
  }

  function Pieces(items: seq<ThreeBit>): (r: seq<string>)
    ensures |r| == |items| && forall k :: 0 <= k < |items| ==> r[k] == [DigitChar(items[k])]
  {
    seq(|items|, k requires 0 <= k < |items| => [DigitChar(items[k])])
  }

  /**
   * Reading a machine's text gives the machine back: its registers and
   * its program, which must be whole pairs with no combo operand 7; an
   * empty program is a missing program.
   */
  lemma {:induction false} FromStrRoundTrip(a: Word, b: Word, c: Word, items: seq<ThreeBit>)
    ensures FromStr(MachineText(a, b, c, items)) ==
      if |items| == 0 then Err(NoProgram)
      else if ValidProgram(items) then Ok(Init(a, b, c, items))
      else Err(Panicked)
  {
    var s := MachineText(a, b, c, items);
    var rest := "\n" + ProgramTag + ProgramText(items);
    assert s == Registers(a, b, c) + rest;
    RegistersParse(a, b, c, rest);
    RegistersNoP(a, b, c);
    ProgramFound(Registers(a, b, c), ProgramText(items));
    var i := |Registers(a, b, c)| + 1;
    assert s[i + |ProgramTag|..] == ProgramText(items);
    ProgramTextParse(items);
  }

  /** A program written as instructions and read back from its machine's text. */
  lemma {:induction false} FromStrProgramRoundTrip(a: Word, b: Word, c: Word, ops: seq<Op>)
    requires |ops| > 0 && forall k :: 0 <= k < |ops| ==> WellFormed(ops[k])
    ensures ValidProgram(EncodeProgram(ops))
    ensures FromStr(MachineText(a, b, c, EncodeProgram(ops))) == Ok(Init(a, b, c, EncodeProgram(ops)))
    ensures FromStr(MachineText(a, b, c, EncodeProgram(ops))).value.program == ops
  {
    ProgramRoundTrip(ops);
    FromStrRoundTrip(a, b, c, EncodeProgram(ops));
  }

  /** The program text splits into its one-digit pieces, each read back; no piece at all is no program. */
  lemma {:induction false} ProgramTextParse(items: seq<ThreeBit>)
    ensures ParseNumbers(Split(ProgramText(items), ',')) == if |items| == 0 then Err(NoProgram) else Ok(items)
  {
    var pieces := Pieces(items);
    if |items| == 0 {
      assert ProgramText(items) == "";
      assert ThreeBitFromStr("") == Err(NoProgram);
    } else {
      forall k | 0 <= k < |pieces| ensures ',' !in pieces[k] {
        assert pieces[k] == [DigitChar(items[k])];
      }
      SplitUnique(ProgramText(items), ',', pieces);
      forall k | 0 <= k < |pieces| ensures ThreeBitFromStr(pieces[k]) == Ok(items[k]) {
        assert pieces[k][0] == DigitChar(items[k]);
      }
      var r := ParseNumbers(pieces);
      assert r.Ok?;
      assert r.value == items;
    }
  }

  /** A mismatch at one place of the pattern rules out an occurrence there. */
  lemma {:induction false} NotAt(s: string, pat: string, j: nat, k: nat)
    requires k < |pat| && j + k < |s| && s[j + k] != pat[k]
    ensures !OccursAt(s, pat, j)
  {
  }

  /** A register line: 'R' only at its start, its register's letter at 9, no 'P' at all. */
  lemma {:induction false} RegLineChars(tag: string, n: nat)
    requires tag == TagA || tag == TagB || tag == TagC
    ensures |RegLine(tag, n)| > 12 && RegLine(tag, n)[0] == 'R' && RegLine(tag, n)[9] == tag[9]
    ensures forall j :: 0 <= j < |RegLine(tag, n)| ==> RegLine(tag, n)[j] != 'P'
    ensures forall j :: 1 <= j < |RegLine(tag, n)| ==> RegLine(tag, n)[j] != 'R'
  {
    var line := RegLine(tag, n);
    var d := Digits(n);
    assert line == tag + d + "\n";
    forall j | 0 <= j < |line| ensures line[j] != 'P' && (j >= 1 ==> line[j] != 'R') {
      if j >= |tag| && j < |tag| + |d| {
        assert line[j] == d[j - |tag|];
        assert IsDigit(d[j - |tag|]);
      }
    }
  }

  /** The three register lines are each read back from the text they start. */
  lemma {:induction false} RegistersParse(a: Word, b: Word, c: Word, rest: string)
    ensures ParseReg(Registers(a, b, c) + rest, TagA) == Ok(a)
    ensures ParseReg(Registers(a, b, c) + rest, TagB) == Ok(b)
    ensures ParseReg(Registers(a, b, c) + rest, TagC) == Ok(c)
  {
    var pA, pB, pC := RegLine(TagA, a), RegLine(TagB, b), RegLine(TagC, c);
    var s := Registers(a, b, c) + rest;
    assert s == pA + (pB + pC + rest) == pA + pB + (pC + rest);
    RegisterAParse(a, pB + pC + rest);
    RegisterBParse(a, b, pC + rest);
    RegisterCParse(a, b, c, rest);
  }

  /** Register A's line starts the text. */
  lemma {:induction false} RegisterAParse(a: Word, rest: string)
    ensures ParseReg(RegLine(TagA, a) + rest, TagA) == Ok(a)
  {
    assert RegLine(TagA, a) + rest == "" + RegLine(TagA, a) + rest;
    ParseRegAt("", TagA, a, rest);
  }

  /** Register B's line is read back after register A's: "Register B: " does not occur in A's line. */
  lemma {:induction false} RegisterBParse(a: Word, b: Word, rest: string)
    ensures ParseReg(RegLine(TagA, a) + RegLine(TagB, b) + rest, TagB) == Ok(b)
  {
    var pA := RegLine(TagA, a);
    var s := pA + RegLine(TagB, b) + rest;
    RegLineChars(TagA, a);
    forall j | 0 <= j < |pA| ensures !OccursAt(s, TagB, j) {
      if j == 0 {
        NotAt(s, TagB, 0, 9);
      } else {
        NotAt(s, TagB, j, 0);
      }
    }
    ParseRegAt(pA, TagB, b, rest);
  }

  /** Register C's line is read back after A's and B's: "Register C: " occurs in neither. */
  lemma {:induction false} RegisterCParse(a: Word, b: Word, c: Word, rest: string)
    ensures ParseReg(RegLine(TagA, a) + RegLine(TagB, b) + RegLine(TagC, c) + rest, TagC) == Ok(c)
  {
    var pA, pB := RegLine(TagA, a), RegLine(TagB, b);
    var s := (pA + pB) + RegLine(TagC, c) + rest;
    RegLineChars(TagA, a);
    RegLineChars(TagB, b);
    forall j | 0 <= j < |pA + pB| ensures !OccursAt(s, TagC, j) {
      if j == 0 {
        NotAt(s, TagC, 0, 9);
      } else if j < |pA| {
        NotAt(s, TagC, j, 0);
      } else if j == |pA| {
        assert s[j + 9] == pB[9];
        NotAt(s, TagC, j, 9);
      } else {
        assert s[j] == pB[j - |pA|];
        NotAt(s, TagC, j, 0);
      }
    }
    ParseRegAt(pA + pB, TagC, c, rest);
  }

  /** No 'P' occurs in the register lines. */
  lemma {:induction false} RegistersNoP(a: Word, b: Word, c: Word)
    ensures forall j :: 0 <= j < |Registers(a, b, c)| ==> Registers(a, b, c)[j] != 'P'
  {
    var pA, pB, pC := RegLine(TagA, a), RegLine(TagB, b), RegLine(TagC, c);
    RegLineChars(TagA, a);
    RegLineChars(TagB, b);
    RegLineChars(TagC, c);
    var regs := Registers(a, b, c);
    forall j | 0 <= j < |regs| ensures regs[j] != 'P' {
      if j < |pA| {
        assert regs[j] == pA[j];
      } else if j < |pA| + |pB| {
        assert regs[j] == pB[j - |pA|];
      } else {
        assert regs[j] == pC[j - |pA| - |pB|];
      }
    }
  }

  /** "Program: " is found just after the register lines and the empty line: 'P' occurs nowhere before. */
  lemma {:induction false} ProgramFound(regs: string, prog: string)
    requires forall j :: 0 <= j < |regs| ==> regs[j] != 'P'
    ensures Find(regs + "\n" + ProgramTag + prog, ProgramTag) == Some(|regs| + 1)
  {
    var s := regs + "\n" + ProgramTag + prog;
    var i := |regs| + 1;
    assert s[i..i + |ProgramTag|] == ProgramTag;
    forall j | 0 <= j < i ensures !OccursAt(s, ProgramTag, j) {
      NotAt(s, ProgramTag, j, 0);
    }
    FindAt(s, ProgramTag, i);
  }

  /** adv 1; out A; jnz 0: the program of the first example, 0,1,5,4,3,0. */
  function HalvingProgram(): seq<Op> {
    [ADV(Literal(1)), OUT(RegA), JNZ(0)]
  }

  lemma {:induction false} HalvingProgramParsed()
    ensures ValidProgram([0, 1, 5, 4, 3, 0]) && ParseInstructions([0, 1, 5, 4, 3, 0]) == HalvingProgram()
  {
    ValidProgramCons(3, 0, []);
    ValidProgramCons(5, 4, [3, 0]);
    ValidProgramCons(0, 1, [5, 4, 3, 0]);
    assert [0, 1] + [5, 4, 3, 0] == [0, 1, 5, 4, 3, 0];
  }

  /** The values the halving program prints: A halved, modulo 8, until A is 0. */
  function Halvings(a: nat): seq<nat>
    decreases a
  {
    var h := a / 2;
    [h % 8] + (if h == 0 then [] else Halvings(h))
  }

  /** The number of times the halving program goes round its loop. */
  function Rounds(a: nat): nat
    decreases a
  {
    if a / 2 == 0 then 1 else 1 + Rounds(a / 2)
  }

  /** One round of the halving program: A is halved, A mod 8 printed, and the jump taken while A is not 0. */
  lemma {:induction false} HalvingRound(ms: MachineState, fuel: nat)
    requires ms.program == HalvingProgram() && ms.ip == 0 && fuel >= 3
    ensures var a := ms.regA / 2;
      Run(ms, fuel) == Prepend([a % 8], Run(ms.(regA := a, ip := if a != 0 then 0 else 3), fuel - 3))
  {
    var a := ms.regA / 2;
    var ms1 := ms.(regA := a, ip := 1);
    var ms2 := ms1.(ip := 2);
    var ms3 := ms2.(ip := if a != 0 then 0 else 3);
    assert Shifted(ms, Literal(1)) == Some(a);
    assert Step(ms) == Continue(ms1, []);
    assert Step(ms1) == Continue(ms2, [a % 8]);
    assert Step(ms2) == Continue(ms3, []);
    assert Run(ms, fuel) == Prepend([], Run(ms1, fuel - 1));
    assert Run(ms1, fuel - 1) == Prepend([a % 8], Run(ms2, fuel - 2));
    assert Run(ms2, fuel - 2) == Prepend([], Run(ms3, fuel - 3));
    PrependTwice([a % 8], Run(ms3, fuel - 3));
  }

  lemma {:induction false} PrependTwice(out: seq<nat>, r: RunResult)
    ensures Prepend([], Prepend(out, Prepend([], r))) == Prepend(out, r)
  {
    if r.Halted? {
      assert [] + (out + ([] + r.output)) == out + r.output;
    }
  }

  /** With enough fuel, the halving program prints Halvings of register A and halts. */
  lemma {:induction false} HalvingRuns(ms: MachineState, fuel: nat)
    requires ms.program == HalvingProgram() && ms.ip == 0 && fuel >= 3 * Rounds(ms.regA)
    ensures Run(ms, fuel).Halted? && Run(ms, fuel).output == Halvings(ms.regA)
    decreases ms.regA
  {
    var a := ms.regA / 2;
    var ms3 := ms.(regA := a, ip := if a != 0 then 0 else 3);
    HalvingRound(ms, fuel);
    if a != 0 {
      HalvingRuns(ms3, fuel - 3);
    } else {
      assert Run(ms3, fuel - 3) == Halted(ms3, []);
    }
  }

  /** The first example: register A is 729. */
  function Example(): MachineState {
    Init(729, 0, 0, [0, 1, 5, 4, 3, 0])
  }

  /** The first example prints 4,6,3,5,6,3,5,2,1,0. */
  lemma {:induction false} ExampleOutput()
    ensures Run(Example(), 30).Halted? && Run(Example(), 30).output == [4, 6, 3, 5, 6, 3, 5, 2, 1, 0]
  {
    HalvingProgramParsed();
    ExampleHalvings();
    HalvingRuns(Example(), 30);
  }

  /** Register A = 729 is halved ten times before it reaches 0. */
  lemma {:induction false} ExampleHalvings()
    ensures Rounds(729) == 10 && Halvings(729) == [4, 6, 3, 5, 6, 3, 5, 2, 1, 0]
  {
    HalvingOnce(2, 1);
    HalvingOnce(5, 2);
    HalvingOnce(11, 5);
    HalvingOnce(22, 11);
    HalvingOnce(45, 22);
    HalvingOnce(91, 45);
    HalvingOnce(182, 91);
    HalvingOnce(364, 182);
    HalvingOnce(729, 364);
  }

  /** Unfolds Halvings and Rounds once, for a concrete A that does not halve to 0. */
  lemma {:induction false} HalvingOnce(a: nat, h: nat)
    requires a / 2 == h && h > 0
    ensures Halvings(a) == [h % 8] + Halvings(h) && Rounds(a) == 1 + Rounds(h)
  {
  }
}
