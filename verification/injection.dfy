/** The CKB-VM side of direct injection: overwrite memory at the PC, reset the decoder cache, step.

    The machine executes whatever its decoder hands it, and the decoder caches by PC. The reference
    below has neither memory nor cache: its k-th step executes the k-th word. */
module Injection {
  import opened Words
  import opened Isa
  import opened Event
  import Program

  // ---- Little-endian code memory ----

  type Memory = map<U64, U8>

  function ByteAt(memory: Memory, address: U64): U8 {
    if address in memory then memory[address] else U8(0)
  }

  function ByteBits(word: bv32, shift: bv5): bv8 { ((word >> shift) & 0xff) as bv8 }

  function Join16Bits(b0: bv8, b1: bv8): bv32 { (b0 as bv32) | ((b1 as bv32) << 8) }

  function Join32Bits(b0: bv8, b1: bv8, b2: bv8, b3: bv8): bv32 {
    (b0 as bv32) | ((b1 as bv32) << 8) | ((b2 as bv32) << 16) | ((b3 as bv32) << 24)
  }

  function ByteOf(word: U32, shift: bv5): U8 { U8(ByteBits(word.bits, shift)) }

  function Join16(low: U8, high: U8): U32 { U32(Join16Bits(low.bits, high.bits)) }

  function Join32(b0: U8, b1: U8, b2: U8, b3: U8): U32 { U32(Join32Bits(b0.bits, b1.bits, b2.bits, b3.bits)) }

  function Offset(address: U64, bytes: bv64): U64 { Plus(address, U64(bytes)) }

  /** `store_bytes(address, word.to_le_bytes())` */
  function StoreWord(memory: Memory, address: U64, word: U32): Memory {
    memory[address := ByteOf(word, 0)][Offset(address, 1) := ByteOf(word, 8)]
          [Offset(address, 2) := ByteOf(word, 16)][Offset(address, 3) := ByteOf(word, 24)]
  }

  /** Fetch the low half first and the high half only when the low bits say there is one. */
  function Fetch(memory: Memory, pc: U64): U32 {
    var low := Join16(ByteAt(memory, pc), ByteAt(memory, Offset(pc, 1)));
    if FullWidth(low.bits) then
      Join32(ByteAt(memory, pc), ByteAt(memory, Offset(pc, 1)), ByteAt(memory, Offset(pc, 2)),
          ByteAt(memory, Offset(pc, 3)))
    else low
  }

  lemma AddressesAreDistinct(address: U64)
    ensures address != Offset(address, 1) && address != Offset(address, 2) && address != Offset(address, 3)
    ensures Offset(address, 1) != Offset(address, 2) && Offset(address, 1) != Offset(address, 3)
    ensures Offset(address, 2) != Offset(address, 3)
  {
  }

  lemma FourBytesJoin(word: bv32)
    ensures Join32Bits((word & 0xff) as bv8, ((word >> 8) & 0xff) as bv8,
                       ((word >> 16) & 0xff) as bv8, ((word >> 24) & 0xff) as bv8) == word
  {
  }

  lemma JoinUndoesSplit32(word: bv32)
    ensures Join32Bits(ByteBits(word, 0), ByteBits(word, 8), ByteBits(word, 16), ByteBits(word, 24)) == word
  {
    FourBytesJoin(word);
  }

  lemma JoinUndoesSplit16(word: bv32)
    ensures Join16Bits(ByteBits(word, 0), ByteBits(word, 8)) == LowHalf(word)
  {
    assert Join16Bits((word & 0xff) as bv8, ((word >> 8) & 0xff) as bv8) == LowHalf(word);
  }

  /** Fetching where a word was just stored returns that word at its own width, whatever an
      overlapping earlier store left in the bytes around it. */
  lemma FetchReturnsTheStoredWord(memory: Memory, pc: U64, word: U32)
    ensures Fetch(StoreWord(memory, pc, word), pc) == NormalizeInstructionWidth(word)
  {
    hide Offset, ByteBits, Join16Bits, Join32Bits, FullWidth, LowHalf;
    AddressesAreDistinct(pc);
    JoinUndoesSplit16(word.bits);
    JoinUndoesSplit32(word.bits);
    LowHalfKeepsWidth(word.bits);
  }

  // ---- The reference: positional execution, no memory and no cache ----

  const WINDOW_END: U64 := U64(0x8001_0000)

  /** The whole word fits below the end of the window, with no wrap-around. */
  predicate InWindow(pc: U64) {
    ENTRY.bits <= pc.bits && pc.bits <= 0xffff_ffff_ffff_fffb && pc.bits + 4 <= WINDOW_END.bits
  }

  const WINDOW_EXIT := "program counter left the injection window"

  datatype Run = Run(trace: ExecutionTrace, state: State)

  function EventOf(order: nat, word: U32, before: State, after: State, trap: bool, halt: bool): CommitEvent {
    CommitEvent(ToU64(order), NormalizeInstructionWidth(word), before.pc, after.pc,
                ChangedRegisters(before.registers, after.registers), [], trap, halt).Normalize()
  }

  /** Put an event in front of a run. */
  function Prepend(event: CommitEvent, run: Run): Run {
    Run(ExecutionTrace([event] + run.trace.events, run.trace.end), run.state)
  }

  /** Continue from the events already produced. */
  function Resume(events: seq<CommitEvent>, run: Run): Run {
    Run(ExecutionTrace(events + run.trace.events, run.trace.end), run.state)
  }

  lemma ResumeAfterEvent(events: seq<CommitEvent>, event: CommitEvent, run: Run)
    ensures Resume(events, Prepend(event, run)) == Resume(events + [event], run)
  {
    assert events + ([event] + run.trace.events) == (events + [event]) + run.trace.events;
  }

  lemma ResumeEnds(events: seq<CommitEvent>, last: seq<CommitEvent>, end: TraceEnd, state: State)
    ensures Resume(events, Run(ExecutionTrace(last, end), state)) == Run(ExecutionTrace(events + last, end), state)
  {
  }

  function Reference(meaning: Semantics, words: seq<U32>, order: nat, state: State): Run
    decreases |words|
  {
    if words == [] then Run(ExecutionTrace([], InjectionComplete), state)
    else if !InWindow(state.pc) then Run(ExecutionTrace([], Error(WINDOW_EXIT)), state)
    else
      var outcome := meaning(NormalizeInstructionWidth(words[0]), state.registers, state.pc);
      var after := After(state, outcome);
      var event := EventOf(order, words[0], state, after, outcome.Trapped?, outcome.Halted?);
      match outcome
      case Trapped(_, reason) => Run(ExecutionTrace([event], Error(reason)), after)
      case Halted(_, code) => Run(ExecutionTrace([event], Completed(Some(code))), after)
      case Retired(_, _, _) => Prepend(event, Reference(meaning, words[1..], order + 1, after))
  }

  // ---- The machine and its caching decoder ----

  /** What a PC-indexed cache answers: a PC decoded before keeps its old word, whatever memory holds. */
  function Decoded(cache: map<U64, U32>, memory: Memory, pc: U64): U32 {
    if pc in cache then cache[pc] else Fetch(memory, pc)
  }

  class Decoder {
    var cache: map<U64, U32>

    constructor ()
      ensures cache == map[]
    {
      cache := map[];
    }

    method ResetInstructionsCache()
      modifies this
      ensures cache == map[]
    {
      cache := map[];
    }

    method Decode(memory: Memory, pc: U64) returns (word: U32)
      modifies this
      ensures word == Decoded(old(cache), memory, pc)
      ensures cache == old(cache)[pc := word]
    {
      if pc in cache {
        word := cache[pc];
        assert cache[pc := word] == cache;
      } else {
        word := Fetch(memory, pc);
        cache := cache[pc := word];
      }
    }
  }

  class Machine {
    const meaning: Semantics
    var registers: Regs
    var pc: U64
    var memory: Memory
    var running: bool
    var exitCode: ExitCode

    function CurrentState(): State
      reads this
    {
      State(registers, pc)
    }

    constructor (meaning: Semantics)
      ensures this.meaning == meaning && CurrentState() == ResetState() && running
    {
      this.meaning := meaning;
      registers := Zeroed();
      pc := ENTRY;
      memory := map[];
      running := true;
      exitCode := 0;
    }

    method StoreBytes(address: U64, word: U32)
      modifies this`memory
      ensures memory == StoreWord(old(memory), address, word)
    {
      memory := StoreWord(memory, address, word);
    }

    /** Decode at the PC and apply the outcome. The error of a trap is returned, not thrown. */
    method Step(decoder: Decoder) returns (error: Option<string>)
      modifies this`registers, this`pc, this`running, this`exitCode, decoder
      ensures var outcome := meaning(Decoded(old(decoder.cache), memory, old(pc)), old(registers), old(pc));
        && CurrentState() == After(old(CurrentState()), outcome)
        && running == (old(running) && !outcome.Halted?)
        && (outcome.Halted? ==> exitCode == outcome.code)
        && error == if outcome.Trapped? then Some(outcome.reason) else None
    {
      var fetched := decoder.Decode(memory, pc);
      error := None;
      match meaning(fetched, registers, pc) {
        case Retired(rd, value, next) =>
          registers := Write(registers, rd, value);
          pc := next;
        case Trapped(next, reason) =>
          pc := next;
          error := Some(reason);
        case Halted(next, code) =>
          pc := next;
          running := false;
          exitCode := code;
      }
    }
  }

  datatype InjectionError = EmptyProgram | UnsupportedWord(error: Program.Unsupported)

  /** Drive a fresh machine. Every step executes exactly the injected word, at whatever address the
      previous words left the PC: backwards, on itself, or half way into an earlier word. */
  method RunProgram(meaning: Semantics, program: seq<U32>) returns (result: Result<Run, InjectionError>)
    ensures program == [] ==> result == Err(EmptyProgram)
    ensures program != [] && Program.Validate(program).Err? ==>
              result == Err(UnsupportedWord(Program.Validate(program).error))
    ensures program != [] && Program.Validate(program).Ok? ==>
              result == Ok(Reference(meaning, program, 0, ResetState()))
  {
    hide ResetState, Program.Validate, InWindow, Fetch, StoreWord, EventOf, After, Resume, Prepend;
    if program == [] {
      return Err(EmptyProgram);
    }
    var validation := Program.Validate(program);
    if validation.Err? {
      return Err(UnsupportedWord(validation.error));
    }
    var machine := new Machine(meaning);
    var decoder := new Decoder();
    var events := [];
    ghost var expected := Reference(meaning, program, 0, ResetState());
    ResumeEnds([], expected.trace.events, expected.trace.end, expected.state);
    assert [] + expected.trace.events == expected.trace.events && program[0..] == program;
    for order := 0 to |program|
      invariant fresh(machine) && fresh(decoder) && machine.meaning == meaning && machine.running
      invariant expected == Resume(events, Reference(meaning, program[order..], order, machine.CurrentState()))
    {
      var before := machine.CurrentState();
      var word := program[order];
      assert program[order..][0] == word && program[order..][1..] == program[order + 1..];
      if !InWindow(before.pc) {
        ResumeEnds(events, [], Error(WINDOW_EXIT), before);
        assert events + [] == events;
        return Ok(Run(ExecutionTrace(events, Error(WINDOW_EXIT)), before));
      }
      FetchReturnsTheStoredWord(machine.memory, before.pc, word);
      machine.StoreBytes(before.pc, word);
      decoder.ResetInstructionsCache();
      var error := machine.Step(decoder);
      var after := machine.CurrentState();
      var event := EventOf(order, word, before, after, error.Some?, !machine.running);
      if error.Some? {
        ResumeEnds(events, [event], Error(error.value), after);
        return Ok(Run(ExecutionTrace(events + [event], Error(error.value)), after));
      }
      if !machine.running {
        ResumeEnds(events, [event], Completed(Some(machine.exitCode)), after);
        return Ok(Run(ExecutionTrace(events + [event], Completed(Some(machine.exitCode))), after));
      }
      ResumeAfterEvent(events, event, Reference(meaning, program[order + 1..], order + 1, after));
      events := events + [event];
    }
    ResumeEnds(events, [], InjectionComplete, machine.CurrentState());
    assert program[|program|..] == [] && events + [] == events;
    return Ok(Run(ExecutionTrace(events, InjectionComplete), machine.CurrentState()));
  }

  // ---- The shape of every run ----

  /** Where event `k` of a chain from `pc` has to start. */
  function ChainPc(events: seq<CommitEvent>, k: nat, pc: U64): U64
    requires k <= |events|
  {
    if k == 0 then pc else events[k - 1].pcAfter
  }

  /** An event reports the word at its position, starts at `pc` and was stored inside the window. */
  ghost predicate Link(word: U32, event: CommitEvent, order: nat, pc: U64) {
    && event.order == ToU64(order)
    && event.instruction == NormalizeInstructionWidth(word)
    && event.pcBefore == pc && InWindow(pc)
    && event.memory == []
  }

  ghost predicate Chained(words: seq<U32>, events: seq<CommitEvent>, order: nat, pc: U64) {
    && |events| <= |words|
    && forall k :: 0 <= k < |events| ==> Link(words[k], events[k], order + k, ChainPc(events, k, pc))
  }

  /** Writes are to x1..x31, each register once, lowest first. */
  predicate NormalizedWrites(writes: seq<RegisterWrite>) {
    && (forall k :: 0 <= k < |writes| ==> 0 < writes[k].index < 32)
    && (forall j, k :: 0 <= j < k < |writes| ==> writes[j].index < writes[k].index)
  }

  lemma EventShape(order: nat, word: U32, before: State, after: State, trap: bool, halt: bool)
    ensures var event := EventOf(order, word, before, after, trap, halt);
      && event == CommitEvent(ToU64(order), NormalizeInstructionWidth(word), before.pc, after.pc,
                              ChangedRegisters(before.registers, after.registers), [], trap, halt)
      && NormalizedWrites(event.registerWrites)
  {
    hide ToU64, NormalizeInstructionWidth;
  }

  lemma ChainGrows(words: seq<U32>, event: CommitEvent, rest: seq<CommitEvent>, order: nat, pc: U64)
    requires words != [] && Chained(words[1..], rest, order + 1, event.pcAfter) && Link(words[0], event, order, pc)
    ensures Chained(words, [event] + rest, order, pc)
  {
    hide Link;
    var events := [event] + rest;
    forall k | 0 <= k < |events|
      ensures Link(words[k], events[k], order + k, ChainPc(events, k, pc))
    {
      if k > 0 {
        assert Link(words[1..][k - 1], rest[k - 1], order + 1 + (k - 1), ChainPc(rest, k - 1, event.pcAfter));
      }
    }
  }

  ghost predicate Quiet(event: CommitEvent) {
    !event.trap && !event.halt && NormalizedWrites(event.registerWrites)
  }

  /** A chain of events without traps or halts, except that the last may say trap or halt. All words
      run and no event says either exactly when the trace ends `InjectionComplete`. */
  ghost predicate WellShaped(words: seq<U32>, trace: ExecutionTrace, order: nat, pc: U64) {
    var n := |trace.events|;
    && Chained(words, trace.events, order, pc)
    && (forall k :: 0 <= k < n - 1 ==> Quiet(trace.events[k]))
    && (n > 0 && !Quiet(trace.events[n - 1]) ==> trace.events[n - 1].trap || trace.events[n - 1].halt)
    && (trace.end == InjectionComplete <==> n == |words| && (n > 0 ==> Quiet(trace.events[n - 1])))
  }

  lemma ShapeGrows(words: seq<U32>, event: CommitEvent, rest: ExecutionTrace, order: nat, pc: U64)
    requires words != [] && WellShaped(words[1..], rest, order + 1, event.pcAfter)
    requires Link(words[0], event, order, pc) && Quiet(event)
    ensures WellShaped(words, ExecutionTrace([event] + rest.events, rest.end), order, pc)
  {
    hide Chained, Quiet, Link;
    ChainGrows(words, event, rest.events, order, pc);
    var events := [event] + rest.events;
    assert forall k :: 0 < k < |events| ==> events[k] == rest.events[k - 1];
  }

  lemma ShapeEnds(words: seq<U32>, event: CommitEvent, end: TraceEnd, order: nat, pc: U64)
    requires words != [] && end != InjectionComplete && (event.trap || event.halt)
    requires Link(words[0], event, order, pc)
    ensures WellShaped(words, ExecutionTrace([event], end), order, pc)
  {
    hide Link;
  }

  /** Every run, of every program under every instruction-set meaning, has that shape. */
  lemma {:induction false} RunsAreWellShaped(meaning: Semantics, words: seq<U32>, order: nat, state: State)
    ensures WellShaped(words, Reference(meaning, words, order, state).trace, order, state.pc)
    decreases |words|
  {
    if words == [] || !InWindow(state.pc) {
    } else {
      hide EventOf, InWindow, NormalizeInstructionWidth, ToU64, WellShaped, NormalizedWrites;
      var outcome := meaning(NormalizeInstructionWidth(words[0]), state.registers, state.pc);
      var after := After(state, outcome);
      var event := EventOf(order, words[0], state, after, outcome.Trapped?, outcome.Halted?);
      EventShape(order, words[0], state, after, outcome.Trapped?, outcome.Halted?);
      if outcome.Retired? {
        RunsAreWellShaped(meaning, words[1..], order + 1, after);
        ShapeGrows(words, event, Reference(meaning, words[1..], order + 1, after).trace, order, state.pc);
      } else {
        ShapeEnds(words, event, Reference(meaning, words, order, state).trace.end, order, state.pc);
      }
    }
  }

  // ---- Why the cache must be reset ----

  /** A stale cache entry replays the word stored there before, unless the two words coincide. */
  lemma StaleEntriesReplay(cache: map<U64, U32>, memory: Memory, pc: U64, word: U32)
    ensures Decoded(cache, StoreWord(memory, pc, word), pc) == NormalizeInstructionWidth(word) <==>
            pc !in cache || cache[pc] == NormalizeInstructionWidth(word)
  {
    FetchReturnsTheStoredWord(memory, pc, word);
  }
}
