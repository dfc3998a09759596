/** A meaning for the injected words: four RV64I instructions over 32 registers and a PC.

    Formats follow the RISC-V Unprivileged ISA Manual, version 20191213, sections 2.2 (formats),
    2.3 (immediates), 2.4 (OP and OP-IMM), 2.5 (branches) and 5.2 (64-bit registers and shifts). */
module Isa {
  import opened Words

  type Reg = index: nat | index < 32

  type Regs = registers: seq<U64> | |registers| == 32 witness seq(32, _ => U64(0))

  datatype Instruction =
    | Add(rd: Reg, rs1: Reg, rs2: Reg)
    | Addi(rd: Reg, rs1: Reg, immediate: U64)
    | Slli(rd: Reg, rs1: Reg, shift: bv6)
    | Beq(rs1: Reg, rs2: Reg, offset: U64)
    | Other

  /** `i8` */
  type ExitCode = code: int | -128 <= code < 128

  /** What one step did. A step writes at most one register; `rd == 0` writes none. */
  datatype Outcome =
    | Retired(rd: Reg, value: U64, next: U64)
    | Trapped(next: U64, reason: string)
    | Halted(next: U64, code: ExitCode)

  datatype State = State(registers: Regs, pc: U64)

  /** An instruction-set meaning: the word, the register file and the PC decide the outcome. */
  type Semantics = (U32, Regs, U64) -> Outcome

  const ENTRY: U64 := U64(0x8000_0000)

  function Zeroed(): Regs {
    seq(32, _ => U64(0))
  }

  function ResetState(): State {
    State(Zeroed(), ENTRY)
  }

  function Read(registers: Regs, index: Reg): U64 {
    if index == 0 then U64(0) else registers[index]
  }

  function Write(registers: Regs, index: Reg, value: U64): Regs {
    if index == 0 then registers else registers[index := value]
  }

  function After(state: State, outcome: Outcome): State {
    match outcome
    case Retired(rd, value, next) => State(Write(state.registers, rd, value), next)
    case Trapped(next, _) => State(state.registers, next)
    case Halted(next, _) => State(state.registers, next)
  }

  // ---- Decoding ----

  function Opcode(word: bv32): bv32 { word & 0x7f }

  function Funct3(word: bv32): bv32 { (word >> 12) & 0x7 }

  function Funct7(word: bv32): bv32 { word >> 25 }

  /** The register named by the low five bits. */
  function RegisterOf(bits: bv32): Reg { (bits & 0x1f) as nat }

  function Rd(word: bv32): Reg { RegisterOf(word >> 7) }

  function Rs1(word: bv32): Reg { RegisterOf(word >> 15) }

  function Rs2(word: bv32): Reg { RegisterOf(word >> 20) }

  /** Copy bit 31 into the upper half: flip it, then subtract its weight back out. */
  function SignExtend(value: bv32): U64 {
    U64(((value as bv64) ^ 0x8000_0000) - 0x8000_0000)
  }

  function ImmediateI(word: bv32): bv32 {
    if word >> 31 == 1 then 0xffff_f000 | (word >> 20) else word >> 20
  }

  function ImmediateB(word: bv32): bv32 {
    (if word >> 31 == 1 then 0xffff_f000 else 0)
    | (((word >> 7) & 0x1) << 11) | (((word >> 25) & 0x3f) << 5) | (((word >> 8) & 0xf) << 1)
  }

  function DecodeBits(word: bv32): Instruction {
    if Opcode(word) == 0x33 && Funct3(word) == 0 && Funct7(word) == 0 then
      Add(Rd(word), Rs1(word), Rs2(word))
    else if Opcode(word) == 0x13 && Funct3(word) == 0 then
      Addi(Rd(word), Rs1(word), SignExtend(ImmediateI(word)))
    else if Opcode(word) == 0x13 && Funct3(word) == 1 && word >> 26 == 0 then
      Slli(Rd(word), Rs1(word), ((word >> 20) & 0x3f) as bv6)
    else if Opcode(word) == 0x63 && Funct3(word) == 0 then
      Beq(Rs1(word), Rs2(word), SignExtend(ImmediateB(word)))
    else
      Other
  }

  function Decode(word: U32): Instruction { DecodeBits(word.bits) }

  // ---- Execution ----

  const WORD_BYTES: U64 := U64(4)

  function ShiftLeft(value: U64, shift: bv6): U64 { U64(value.bits << shift) }

  function Execute(word: U32, registers: Regs, pc: U64): Outcome {
    match Decode(word)
    case Add(rd, rs1, rs2) => Retired(rd, Plus(Read(registers, rs1), Read(registers, rs2)), Plus(pc, WORD_BYTES))
    case Addi(rd, rs1, immediate) => Retired(rd, Plus(Read(registers, rs1), immediate), Plus(pc, WORD_BYTES))
    case Slli(rd, rs1, shift) => Retired(rd, ShiftLeft(Read(registers, rs1), shift), Plus(pc, WORD_BYTES))
    case Beq(rs1, rs2, offset) =>
      Retired(0, U64(0), Plus(pc, if Read(registers, rs1) == Read(registers, rs2) then offset else WORD_BYTES))
    case Other => Trapped(pc, "illegal instruction")
  }

  /** Positional injection: the k-th word is the k-th instruction executed, wherever the PC is.
      `None` when some word does not retire. */
  function RunWords(meaning: Semantics, words: seq<U32>, state: State): Option<State> {
    if words == [] then Some(state)
    else
      var outcome := meaning(words[0], state.registers, state.pc);
      if outcome.Retired? then RunWords(meaning, words[1..], After(state, outcome)) else None
  }

  /** Running a concatenation is running the parts in turn. */
  lemma {:induction false} RunConcatenation(meaning: Semantics, first: seq<U32>, second: seq<U32>, state: State)
    ensures RunWords(meaning, first + second, state) ==
            match RunWords(meaning, first, state)
            case None => None
            case Some(middle) => RunWords(meaning, second, middle)
  {
    if first == [] {
      assert first + second == second;
    } else {
      var outcome := meaning(first[0], state.registers, state.pc);
      assert (first + second)[1..] == first[1..] + second;
      if outcome.Retired? {
        RunConcatenation(meaning, first[1..], second, After(state, outcome));
      }
    }
  }

  lemma RunInTurn(meaning: Semantics, first: seq<U32>, second: seq<U32>, start: State, middle: State, end: State)
    requires RunWords(meaning, first, start) == Some(middle) && RunWords(meaning, second, middle) == Some(end)
    ensures RunWords(meaning, first + second, start) == Some(end)
  {
    RunConcatenation(meaning, first, second, start);
  }
}
