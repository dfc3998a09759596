/** The subset of instructions whose effects both observers can report. */
module Program {
  import opened Words
  import opened Isa
  import opened Encode

  datatype Reason = MemoryAccess | System

  datatype Unsupported = Unsupported(index: nat, bits: U32, reason: Reason)

  /** Bits 15-13 of a compressed instruction. */
  function CompressedFunct3(bits: bv32): bv32 { (bits >> 13) & 0x7 }

  function ReasonOfBits(bits: bv32): Option<Reason> {
    if bits & 0x3 == 0x3 then
      var opcode := Opcode(bits);
      if opcode == 0x03 || opcode == 0x07 then Some(MemoryAccess)
      else if opcode == 0x23 || opcode == 0x27 then Some(MemoryAccess)
      else if opcode == 0x2f then Some(MemoryAccess)
      else if opcode == 0x73 then Some(System)
      else None
    else
      var quadrant, funct3 := bits & 0x3, CompressedFunct3(bits);
      if quadrant == 0 && funct3 == 0 then None
      else if quadrant == 0 then Some(MemoryAccess)
      else if quadrant == 2 && (funct3 == 2 || funct3 == 3 || funct3 == 6 || funct3 == 7) then Some(MemoryAccess)
      else if quadrant == 2 && funct3 == 4 && bits & 0xffff == 0x9002 then Some(System)
      else None
  }

  function UnsupportedReason(word: U32): Option<Reason> { ReasonOfBits(word.bits) }

  /** Everything from `index` on is supported, or the first word that is not is named. */
  function ValidateFrom(program: seq<U32>, index: nat): (result: Result<(), Unsupported>)
    requires index <= |program|
    ensures result.Ok? <==> forall k :: index <= k < |program| ==> UnsupportedReason(program[k]).None?
    ensures result.Err? ==>
      var Unsupported(at, bits, reason) := result.error;
      index <= at < |program| && bits == program[at] && UnsupportedReason(bits) == Some(reason) &&
      forall k :: index <= k < at ==> UnsupportedReason(program[k]).None?
    decreases |program| - index
  {
    if index == |program| then Ok(())
    else
      match UnsupportedReason(program[index])
      case Some(reason) => Err(Unsupported(index, program[index], reason))
      case None => ValidateFrom(program, index + 1)
  }

  function Validate(program: seq<U32>): Result<(), Unsupported> {
    ValidateFrom(program, 0)
  }

  lemma LowOpcodeBits(word: bv32)
    requires Opcode(word) == 0x33 || Opcode(word) == 0x13 || Opcode(word) == 0x63
    ensures word & 0x3 == 0x3
  {
  }

  /** The four modelled instructions are all supported. */
  lemma DecodedWordsAreSupported(word: U32)
    requires !Decode(word).Other?
    ensures UnsupportedReason(word).None?
  {
    assert Opcode(word.bits) == 0x33 || Opcode(word.bits) == 0x13 || Opcode(word.bits) == 0x63;
    LowOpcodeBits(word.bits);
  }

  /** Every list of words the encoders produce is accepted. */
  lemma EncodedProgramsAreAccepted(assembly: seq<Assembly>)
    requires forall k :: 0 <= k < |assembly| ==> assembly[k].InRange()
    ensures Validate(seq(|assembly|, k requires 0 <= k < |assembly| => assembly[k].Word())).Ok?
  {
    forall k | 0 <= k < |assembly|
      ensures UnsupportedReason(assembly[k].Word()).None?
    {
      WordsDecodeToTheirOperands(assembly[k]);
      DecodedWordsAreSupported(assembly[k].Word());
    }
  }
}
