/** Commit events, traces and the shadow register file of the packet-side observer. */
module Event {
  import opened Words
  import opened Isa

  type Byte = value: nat | value < 256

  datatype RegisterWrite = RegisterWrite(index: Byte, value: U64)

  datatype MemoryAccess =
    MemoryAccess(address: U64, readMask: U32, writeMask: U32, readData: U64, writeData: U64)

  function RetainWrites(writes: seq<RegisterWrite>): (kept: seq<RegisterWrite>)
    ensures forall write :: write in kept <==> write in writes && write.index != 0
    ensures (forall write :: write in writes ==> write.index != 0) ==> kept == writes
  {
    if writes == [] then []
    else (if writes[0].index != 0 then [writes[0]] else []) + RetainWrites(writes[1..])
  }

  function RetainAccesses(accesses: seq<MemoryAccess>): (kept: seq<MemoryAccess>)
    ensures forall access :: access in kept <==>
              access in accesses && (access.readMask != U32(0) || access.writeMask != U32(0))
  {
    if accesses == [] then []
    else (if accesses[0].readMask != U32(0) || accesses[0].writeMask != U32(0) then [accesses[0]] else [])
         + RetainAccesses(accesses[1..])
  }

  datatype CommitEvent = CommitEvent(
    order: U64, instruction: U32, pcBefore: U64, pcAfter: U64,
    registerWrites: seq<RegisterWrite>, memory: seq<MemoryAccess>, trap: bool, halt: bool)
  {
    /** Drop architectural no-ops: writes to x0 and accesses with both masks zero. */
    function Normalize(): CommitEvent {
      this.(registerWrites := RetainWrites(registerWrites), memory := RetainAccesses(memory))
    }
  }

  datatype TraceEnd =
    | Completed(exitCode: Option<int>)
    | StepLimit
    | InjectionComplete
    | Trap(reason: string)
    | Error(message: string)

  datatype Category = IsCompleted | IsStepLimit | IsInjectionComplete | IsTrap | IsError

  function CategoryOf(end: TraceEnd): Category {
    match end
    case Completed(_) => IsCompleted
    case StepLimit => IsStepLimit
    case InjectionComplete => IsInjectionComplete
    case Trap(_) => IsTrap
    case Error(_) => IsError
  }

  datatype ExecutionTrace = ExecutionTrace(events: seq<CommitEvent>, end: TraceEnd)

  // `retain` keeps the order and every repetition: each element is kept or dropped where it stands.
  lemma {:induction false} WritesDistribute(first: seq<RegisterWrite>, second: seq<RegisterWrite>)
    ensures RetainWrites(first + second) == RetainWrites(first) + RetainWrites(second)
    decreases |first|
  {
    if first == [] {
      assert first + second == second;
    } else {
      assert (first + second)[0] == first[0] && (first + second)[1..] == first[1..] + second;
      WritesDistribute(first[1..], second);
    }
  }

  lemma OneWriteRetained(write: RegisterWrite)
    ensures RetainWrites([write]) == if write.index != 0 then [write] else []
  {
    assert [write][1..] == [];
  }

  lemma WritesRetainedInPlace(before: seq<RegisterWrite>, write: RegisterWrite, after: seq<RegisterWrite>)
    ensures RetainWrites(before + [write] + after) ==
            RetainWrites(before) + (if write.index != 0 then [write] else []) + RetainWrites(after)
  {
    hide RetainWrites;
    WritesDistribute(before + [write], after);
    WritesDistribute(before, [write]);
    OneWriteRetained(write);
  }

  lemma {:induction false} AccessesDistribute(first: seq<MemoryAccess>, second: seq<MemoryAccess>)
    ensures RetainAccesses(first + second) == RetainAccesses(first) + RetainAccesses(second)
    decreases |first|
  {
    if first == [] {
      assert first + second == second;
    } else {
      assert (first + second)[0] == first[0] && (first + second)[1..] == first[1..] + second;
      AccessesDistribute(first[1..], second);
    }
  }

  lemma OneAccessRetained(access: MemoryAccess)
    ensures RetainAccesses([access]) == if access.readMask != U32(0) || access.writeMask != U32(0) then [access] else []
  {
    assert [access][1..] == [];
  }

  lemma AccessesRetainedInPlace(before: seq<MemoryAccess>, access: MemoryAccess, after: seq<MemoryAccess>)
    ensures RetainAccesses(before + [access] + after) ==
            RetainAccesses(before)
            + (if access.readMask != U32(0) || access.writeMask != U32(0) then [access] else [])
            + RetainAccesses(after)
  {
    hide RetainAccesses;
    AccessesDistribute(before + [access], after);
    AccessesDistribute(before, [access]);
    OneAccessRetained(access);
  }

  predicate FullWidth(bits: bv32) { bits & 0x3 == 0x3 }

  function LowHalf(bits: bv32): bv32 { bits & 0xffff }

  function NormalizeBits(bits: bv32): bv32 { if FullWidth(bits) then bits else LowHalf(bits) }

  /** A compressed instruction keeps only its own half of a 32-bit fetch. */
  function NormalizeInstructionWidth(word: U32): U32 { U32(NormalizeBits(word.bits)) }

  /** Full width, or compressed with a zero upper half. */
  predicate KeepsItsBits(word: U32) { FullWidth(word.bits) || word.bits <= 0xffff }

  lemma LowHalfUnchanged(bits: bv32)
    ensures LowHalf(bits) == bits <==> bits <= 0xffff
  {
  }

  lemma LowHalfKeepsWidth(bits: bv32)
    ensures FullWidth(LowHalf(bits)) == FullWidth(bits) && LowHalf(LowHalf(bits)) == LowHalf(bits)
  {
  }

  /** Width normalization keeps exactly the words that are full width or have a zero upper half. */
  lemma NormalizationKeepsExactly(word: U32)
    ensures NormalizeInstructionWidth(word) == word <==> KeepsItsBits(word)
    ensures NormalizeInstructionWidth(NormalizeInstructionWidth(word)) == NormalizeInstructionWidth(word)
  {
    hide FullWidth, LowHalf;
    LowHalfUnchanged(word.bits);
    LowHalfKeepsWidth(word.bits);
  }

  // ---- The shadow register file ----

  /** The slot a reported write lands in, if it names an integer register other than x0. */
  predicate Architectural(index: Byte) { 0 < index < 32 }

  function ShadowAfter(registers: Regs, index: Byte, value: U64): Regs {
    if Architectural(index) then registers[index := value] else registers
  }

  function Observed(registers: Regs, index: Byte, value: U64): Option<RegisterWrite> {
    if Architectural(index) && registers[index] != value then Some(RegisterWrite(index, value)) else None
  }

  class RegisterShadow {
    const registers: array<U64>

    ghost predicate Valid()
      reads this, registers
    {
      registers.Length == 32
    }

    function Contents(): Regs
      requires Valid()
      reads this, registers
    {
      registers[..]
    }

    constructor Zeroed()
      ensures Valid() && fresh(registers) && Contents() == Isa.Zeroed()
    {
      registers := new U64[32](_ => U64(0));
    }

    /** Record a reported write; report it only when it changes the file. */
    method Observe(index: Byte, value: U64) returns (write: Option<RegisterWrite>)
      requires Valid()
      modifies registers
      ensures Valid()
      ensures write == Observed(old(Contents()), index, value)
      ensures Contents() == ShadowAfter(old(Contents()), index, value)
    {
      if index == 0 || index >= 32 {
        return None;
      }
      if registers[index] == value {
        assert registers[..] == ShadowAfter(registers[..], index, value);
        return None;
      }
      registers[index] := value;
      return Some(RegisterWrite(index, value));
    }
  }

  // ---- The state-difference observer ----

  /** The registers from `index` on whose value changed, lowest first; x0 is never reported. */
  function ChangedFrom(before: Regs, after: Regs, index: nat): (writes: seq<RegisterWrite>)
    requires index <= 32
    ensures forall k :: 0 <= k < |writes| ==>
              0 < writes[k].index < 32 && index <= writes[k].index &&
              before[writes[k].index] != after[writes[k].index] == writes[k].value
    ensures forall j, k :: 0 <= j < k < |writes| ==> writes[j].index < writes[k].index
    ensures forall r: Reg :: 0 < r && index <= r && before[r] != after[r] ==> RegisterWrite(r, after[r]) in writes
    decreases 32 - index
  {
    if index == 32 then []
    else
      (if index != 0 && before[index] != after[index] then [RegisterWrite(index, after[index])] else [])
      + ChangedFrom(before, after, index + 1)
  }

  function ChangedRegisters(before: Regs, after: Regs): seq<RegisterWrite> {
    ChangedFrom(before, after, 0)
  }

  function OptionToSeq<T>(option: Option<T>): seq<T> {
    match option
    case None => []
    case Some(value) => [value]
  }

  lemma {:induction false} UnchangedReportsNothing(before: Regs, index: nat)
    requires index <= 32
    ensures ChangedFrom(before, before, index) == []
    decreases 32 - index
  {
    if index < 32 {
      UnchangedReportsNothing(before, index + 1);
    }
  }

  lemma WriteAt(registers: Regs, rd: Reg, value: U64, index: Reg)
    ensures Write(registers, rd, value)[index] == if index == rd && rd != 0 then value else registers[index]
  {
  }

  lemma {:induction false} ChangedFromAfterWrite(registers: Regs, rd: Reg, value: U64, index: nat)
    requires index <= 32
    ensures ChangedFrom(registers, Write(registers, rd, value), index) ==
            if index <= rd then OptionToSeq(Observed(registers, rd, value)) else []
    decreases 32 - index
  {
    hide Write;
    if index < 32 {
      WriteAt(registers, rd, value, index);
      ChangedFromAfterWrite(registers, rd, value, index + 1);
    }
  }

  /** One step: the difference of the states is the write the shadow reports, for x0 writes,
      rewrites of a held value and changes alike, and the shadow stays equal to the machine. */
  lemma ObserversAgreeOnAStep(registers: Regs, rd: Reg, value: U64)
    ensures ChangedRegisters(registers, Write(registers, rd, value)) ==
            OptionToSeq(Observed(registers, rd, value))
    ensures ShadowAfter(registers, rd, value) == Write(registers, rd, value)
  {
    ChangedFromAfterWrite(registers, rd, value, 0);
  }

  /** A step as a register write: x0 stands for none. */
  datatype Step = Step(rd: Reg, value: U64)

  /** What comparing the register file before and after each step reports, and the final file. */
  function MachineRun(registers: Regs, steps: seq<Step>): (seq<seq<RegisterWrite>>, Regs)
    decreases |steps|
  {
    if steps == [] then ([], registers)
    else
      var after := Write(registers, steps[0].rd, steps[0].value);
      var (reports, final) := MachineRun(after, steps[1..]);
      ([ChangedRegisters(registers, after)] + reports, final)
  }

  /** What a shadow fed each step's reported write reports, and the shadow it ends with. */
  function ShadowRun(shadow: Regs, steps: seq<Step>): (seq<seq<RegisterWrite>>, Regs)
    decreases |steps|
  {
    if steps == [] then ([], shadow)
    else
      var (reports, final) := ShadowRun(ShadowAfter(shadow, steps[0].rd, steps[0].value), steps[1..]);
      ([OptionToSeq(Observed(shadow, steps[0].rd, steps[0].value))] + reports, final)
  }

  /** Over every run of steps that write at most one register the observers agree step by step,
      and the shadow file is the machine's register file after every prefix. */
  lemma {:induction false} ObserversAgreeOnEveryRun(registers: Regs, steps: seq<Step>)
    ensures ShadowRun(registers, steps) == MachineRun(registers, steps)
    decreases |steps|
  {
    hide ChangedRegisters, Observed, ShadowAfter, Write, OptionToSeq;
    if steps != [] {
      ObserversAgreeOnAStep(registers, steps[0].rd, steps[0].value);
      ObserversAgreeOnEveryRun(Write(registers, steps[0].rd, steps[0].value), steps[1..]);
    }
  }
}
