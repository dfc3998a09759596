/** The corpus word encoders and the compiler of 64-bit constants.

    An `i32` argument is carried as its two's-complement bits. */
module Encode {
  import opened Words
  import opened Isa

  const OPCODE_OP: bv32 := 0x33
  const OPCODE_OP_IMM: bv32 := 0x13
  const OPCODE_BRANCH: bv32 := 0x63

  /** -2048 <= immediate <= 2047 */
  predicate Signed12(immediate: bv32) {
    immediate <= 0x7ff || 0xffff_f800 <= immediate
  }

  /** -4096 <= offset <= 4094 and even */
  predicate BranchOffset(offset: bv32) {
    (offset <= 0xffe || 0xffff_f000 <= offset) && offset & 1 == 0
  }

  lemma IndexIsSmall(index: Reg)
    ensures index as bv32 < 32
  {
  }

  lemma LowBitsOfSmall(bits: bv32)
    requires bits < 32
    ensures bits & 0x1f == bits
  {
  }

  lemma NarrowRoundTrip(index: Reg)
    ensures (index as bv5) as nat == index
  {
  }

  lemma WideningKeeps(bits: bv5)
    ensures (bits as bv32) as nat == bits as nat && (bits as nat) as bv32 == bits as bv32
  {
  }

  lemma IndexRoundTrip(index: Reg)
    ensures (index as bv32) as nat == index
  {
    NarrowRoundTrip(index);
    WideningKeeps(index as bv5);
  }

  /** The bits of a register number, all of them in the low five positions. */
  function RegisterBits(index: Reg): (bits: bv32)
    ensures bits < 32 && RegisterOf(bits) == index
  {
    IndexIsSmall(index);
    LowBitsOfSmall(index as bv32);
    IndexRoundTrip(index);
    index as bv32
  }

  /** The common layout: a 12-bit or register-and-funct7 head, then rs1, funct3, rd, opcode. */
  function Pack(head: bv32, rs1: bv32, funct3: bv32, rd: bv32, opcode: bv32): bv32 {
    (head << 20) | (rs1 << 15) | (funct3 << 12) | (rd << 7) | opcode
  }

  function RType(funct7: bv32, rs2: Reg, rs1: Reg, funct3: bv32, rd: Reg, opcode: bv32): bv32 {
    Pack((funct7 << 5) | RegisterBits(rs2), RegisterBits(rs1), funct3, RegisterBits(rd), opcode)
  }

  function IType(immediate: bv32, rs1: Reg, funct3: bv32, rd: Reg, opcode: bv32): bv32
    requires Signed12(immediate)
  {
    Pack(immediate & 0xfff, RegisterBits(rs1), funct3, RegisterBits(rd), opcode)
  }

  function AddWord(rd: Reg, rs1: Reg, rs2: Reg): U32 {
    U32(RType(0, rs2, rs1, 0, rd, OPCODE_OP))
  }

  function AddiWord(rd: Reg, rs1: Reg, immediate: bv32): U32
    requires Signed12(immediate)
  {
    U32(IType(immediate, rs1, 0, rd, OPCODE_OP_IMM))
  }

  function SlliWord(rd: Reg, rs1: Reg, shift: bv32): U32
    requires shift < 64
  {
    U32(Pack(shift, RegisterBits(rs1), 1, RegisterBits(rd), OPCODE_OP_IMM))
  }

  /** The branch offset is scattered over bits 31, 30-25, 11-8 and 7. */
  function PackBranch(rs1: bv32, rs2: bv32, offset: bv32): bv32 {
    (((offset >> 12) & 0x1) << 31) | (((offset >> 5) & 0x3f) << 25) | (rs2 << 20) | (rs1 << 15)
    | (((offset >> 1) & 0xf) << 8) | (((offset >> 11) & 0x1) << 7) | OPCODE_BRANCH
  }

  function BeqWord(rs1: Reg, rs2: Reg, offset: bv32): U32
    requires BranchOffset(offset)
  {
    U32(PackBranch(RegisterBits(rs1), RegisterBits(rs2), offset))
  }

  function Nop(): U32 { AddiWord(0, 0, 0) }

  // ---- Every word decodes to its operands ----

  /** A register number is recovered from any position it was placed at. */
  lemma RegisterRecovered(index: Reg, word: bv32)
    requires word & 0x1f == RegisterBits(index)
    ensures RegisterOf(word) == index
  {
    assert RegisterOf(word) == RegisterOf(RegisterBits(index)) by {
      assert word & 0x1f == RegisterBits(index) & 0x1f;
    }
  }

  lemma PackFields(head: bv32, rs1: bv32, funct3: bv32, rd: bv32, opcode: bv32)
    requires head < 0x1000 && rs1 < 32 && funct3 < 8 && rd < 32 && opcode < 0x80
    ensures var word := Pack(head, rs1, funct3, rd, opcode);
      Opcode(word) == opcode && Funct3(word) == funct3 && word >> 20 == head &&
      (word >> 7) & 0x1f == rd && (word >> 15) & 0x1f == rs1
  {
  }

  lemma PackBranchFields(rs1: bv32, rs2: bv32, offset: bv32)
    requires rs1 < 32 && rs2 < 32 && BranchOffset(offset)
    ensures var word := PackBranch(rs1, rs2, offset);
      Opcode(word) == 0x63 && Funct3(word) == 0 && ImmediateB(word) == offset &&
      (word >> 15) & 0x1f == rs1 && (word >> 20) & 0x1f == rs2
  {
  }

  lemma AddFromFields(word: bv32, rd: Reg, rs1: Reg, rs2: Reg)
    requires Opcode(word) == 0x33 && Funct3(word) == 0 && word >> 20 == RegisterBits(rs2)
    requires (word >> 7) & 0x1f == RegisterBits(rd) && (word >> 15) & 0x1f == RegisterBits(rs1)
    ensures DecodeBits(word) == Add(rd, rs1, rs2)
  {
    RegisterRecovered(rd, word >> 7);
    RegisterRecovered(rs1, word >> 15);
    RegisterRecovered(rs2, word >> 20);
    assert word >> 25 == (word >> 20) >> 5;
  }

  lemma ImmediateRecovered(word: bv32, immediate: bv32)
    requires Signed12(immediate) && word >> 20 == immediate & 0xfff
    ensures ImmediateI(word) == immediate
  {
  }

  lemma AddiFromFields(word: bv32, rd: Reg, rs1: Reg, immediate: bv32)
    requires Opcode(word) == 0x13 && Funct3(word) == 0 && ImmediateI(word) == immediate
    requires (word >> 7) & 0x1f == RegisterBits(rd) && (word >> 15) & 0x1f == RegisterBits(rs1)
    ensures DecodeBits(word) == Addi(rd, rs1, SignExtend(immediate))
  {
    RegisterRecovered(rd, word >> 7);
    RegisterRecovered(rs1, word >> 15);
  }

  lemma SlliFromFields(word: bv32, rd: Reg, rs1: Reg, shift: bv32)
    requires Opcode(word) == 0x13 && Funct3(word) == 1 && word >> 20 == shift && shift < 64
    requires (word >> 7) & 0x1f == RegisterBits(rd) && (word >> 15) & 0x1f == RegisterBits(rs1)
    ensures DecodeBits(word) == Slli(rd, rs1, shift as bv6)
  {
    RegisterRecovered(rd, word >> 7);
    RegisterRecovered(rs1, word >> 15);
    assert word >> 26 == (word >> 20) >> 6 == 0;
    assert (word >> 20) & 0x3f == shift;
  }

  lemma BeqFromFields(word: bv32, rs1: Reg, rs2: Reg, offset: bv32)
    requires Opcode(word) == 0x63 && Funct3(word) == 0 && ImmediateB(word) == offset
    requires (word >> 15) & 0x1f == RegisterBits(rs1) && (word >> 20) & 0x1f == RegisterBits(rs2)
    ensures DecodeBits(word) == Beq(rs1, rs2, SignExtend(offset))
  {
    RegisterRecovered(rs1, word >> 15);
    RegisterRecovered(rs2, word >> 20);
  }

  lemma DecodeAdd(rd: Reg, rs1: Reg, rs2: Reg)
    ensures Decode(AddWord(rd, rs1, rs2)) == Add(rd, rs1, rs2)
  {
    var head := (0 << 5) | RegisterBits(rs2);
    assert head == RegisterBits(rs2);
    PackFields(head, RegisterBits(rs1), 0, RegisterBits(rd), OPCODE_OP);
    AddFromFields(AddWord(rd, rs1, rs2).bits, rd, rs1, rs2);
  }

  lemma DecodeAddi(rd: Reg, rs1: Reg, immediate: bv32)
    requires Signed12(immediate)
    ensures Decode(AddiWord(rd, rs1, immediate)) == Addi(rd, rs1, SignExtend(immediate))
  {
    PackFields(immediate & 0xfff, RegisterBits(rs1), 0, RegisterBits(rd), OPCODE_OP_IMM);
    ImmediateRecovered(AddiWord(rd, rs1, immediate).bits, immediate);
    AddiFromFields(AddiWord(rd, rs1, immediate).bits, rd, rs1, immediate);
  }

  lemma DecodeSlli(rd: Reg, rs1: Reg, shift: bv32)
    requires shift < 64
    ensures Decode(SlliWord(rd, rs1, shift)) == Slli(rd, rs1, shift as bv6)
  {
    PackFields(shift, RegisterBits(rs1), 1, RegisterBits(rd), OPCODE_OP_IMM);
    SlliFromFields(SlliWord(rd, rs1, shift).bits, rd, rs1, shift);
  }

  lemma DecodeBeq(rs1: Reg, rs2: Reg, offset: bv32)
    requires BranchOffset(offset)
    ensures Decode(BeqWord(rs1, rs2, offset)) == Beq(rs1, rs2, SignExtend(offset))
  {
    PackBranchFields(RegisterBits(rs1), RegisterBits(rs2), offset);
    BeqFromFields(BeqWord(rs1, rs2, offset).bits, rs1, rs2, offset);
  }

  /** The canonical NOP only moves the PC on. */
  lemma NopOnlyAdvances(state: State)
    ensures After(state, Execute(Nop(), state.registers, state.pc)) ==
        State(state.registers, Plus(state.pc, WORD_BYTES))
  {
    hide Decode, AddiWord, SignExtend, Plus;
    DecodeAddi(0, 0, 0);
  }

  // ---- The encoders together ----

  /** A call of one of the four encoders. */
  datatype Assembly =
    | AddOf(rd: Reg, rs1: Reg, rs2: Reg)
    | AddiOf(rd: Reg, rs1: Reg, immediate: bv32)
    | SlliOf(rd: Reg, rs1: Reg, shift: bv32)
    | BeqOf(rs1: Reg, rs2: Reg, offset: bv32)
  {
    /** The assertions of the encoders on their arguments. */
    predicate InRange() {
      match this
      case AddOf(_, _, _) => true
      case AddiOf(_, _, immediate) => Signed12(immediate)
      case SlliOf(_, _, shift) => shift < 64
      case BeqOf(_, _, offset) => BranchOffset(offset)
    }

    function Word(): U32
      requires InRange()
    {
      match this
      case AddOf(rd, rs1, rs2) => AddWord(rd, rs1, rs2)
      case AddiOf(rd, rs1, immediate) => AddiWord(rd, rs1, immediate)
      case SlliOf(rd, rs1, shift) => SlliWord(rd, rs1, shift)
      case BeqOf(rs1, rs2, offset) => BeqWord(rs1, rs2, offset)
    }

    function Meaning(): Instruction
      requires InRange()
    {
      match this
      case AddOf(rd, rs1, rs2) => Add(rd, rs1, rs2)
      case AddiOf(rd, rs1, immediate) => Addi(rd, rs1, SignExtend(immediate))
      case SlliOf(rd, rs1, shift) => Slli(rd, rs1, shift as bv6)
      case BeqOf(rs1, rs2, offset) => Beq(rs1, rs2, SignExtend(offset))
    }
  }

  lemma WordsDecodeToTheirOperands(assembly: Assembly)
    requires assembly.InRange()
    ensures Decode(assembly.Word()) == assembly.Meaning()
  {
    hide AddWord, AddiWord, SlliWord, BeqWord, Decode, SignExtend;
    match assembly
    case AddOf(rd, rs1, rs2) => DecodeAdd(rd, rs1, rs2);
    case AddiOf(rd, rs1, immediate) => DecodeAddi(rd, rs1, immediate);
    case SlliOf(rd, rs1, shift) => DecodeSlli(rd, rs1, shift);
    case BeqOf(rs1, rs2, offset) => DecodeBeq(rs1, rs2, offset);
  }

  lemma SignExtendIsInjective(left: bv32, right: bv32)
    requires SignExtend(left) == SignExtend(right)
    ensures left == right
  {
  }

  lemma ShiftIsInjective(left: bv32, right: bv32)
    requires left < 64 && right < 64 && left as bv6 == right as bv6
    ensures left == right
  {
  }

  /** Different mnemonics or operands never share a word. */
  lemma EncodingIsInjective(left: Assembly, right: Assembly)
    requires left.InRange() && right.InRange() && left.Word() == right.Word()
    ensures left == right
  {
    hide AddWord, AddiWord, SlliWord, BeqWord, Decode, SignExtend, Signed12, BranchOffset;
    WordsDecodeToTheirOperands(left);
    WordsDecodeToTheirOperands(right);
    match left
    case AddOf(_, _, _) =>
    case AddiOf(_, _, immediate) => SignExtendIsInjective(immediate, right.immediate);
    case SlliOf(_, _, shift) => ShiftIsInjective(shift, right.shift);
    case BeqOf(_, _, offset) => SignExtendIsInjective(offset, right.offset);
  }
}
