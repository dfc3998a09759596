/** The RVFI-DII client: one command, one packet, one event per injected word. */
module Dii {
  import opened Words
  import opened Isa
  import opened Event
  import opened Packet
  import Injection
  import Program

  const END_OF_TRACE: bv64 := 0

  const INSTRUCTION: bv64 := 1

  /** `(command << 48) | instruction` */
  function CommandWord(command: bv64, instruction: U32): U64 {
    U64((command << 48) | (instruction.bits as bv64))
  }

  function CommandOf(word: U64): bv64 { (word.bits >> 48) & 0xffff }

  function InstructionOf(word: U64): U32 { TruncateTo32(word) }

  lemma InjectionCommandDecodes(instruction: U32)
    ensures CommandOf(CommandWord(INSTRUCTION, instruction)) == INSTRUCTION
    ensures InstructionOf(CommandWord(INSTRUCTION, instruction)) == instruction
  {
  }

  lemma EndCommandDecodes()
    ensures CommandOf(CommandWord(END_OF_TRACE, U32(0))) == END_OF_TRACE
  {
  }

  /** Whatever is at the other end: its answer to the latest of the commands written so far, or
      `None` when the socket fails. */
  type Peer = seq<U64> -> Option<PacketBytes>

  datatype DriveError = SocketFailed(index: nat) | NotFromReset(first: V1Packet) | NoFinalHalt(last: V1Packet)

  /** The outcome of driving a program, and every packet received on the way. */
  datatype Driven = Driven(outcome: Result<ExecutionTrace, DriveError>, packets: seq<PacketBytes>)

  predicate StartedFromReset(first: V1Packet) {
    first.order == U64(0) && first.pcRdata == ENTRY
  }

  function PrependStep(packet: PacketBytes, event: CommitEvent, drive: Driven): Driven {
    Driven(
      match drive.outcome
      case Ok(trace) => Ok(ExecutionTrace([event] + trace.events, trace.end))
      case Err(error) => Err(error),
      [packet] + drive.packets)
  }

  /** Driving `program` from `index` on, after writing `sent` and with the given shadow file. */
  function DriveFrom(peer: Peer, program: seq<U32>, index: nat, sent: seq<U64>, shadow: Regs): Driven
    requires index <= |program|
    decreases |program| - index
  {
    if index == |program| then
      match peer(sent + [CommandWord(END_OF_TRACE, U32(0))])
      case None => Driven(Err(SocketFailed(index)), [])
      case Some(bytes) =>
        if Parse(bytes).halt then Driven(Ok(ExecutionTrace([], InjectionComplete)), [bytes])
        else Driven(Err(NoFinalHalt(Parse(bytes))), [bytes])
    else
      var now := sent + [CommandWord(INSTRUCTION, program[index])];
      match peer(now)
      case None => Driven(Err(SocketFailed(index)), [])
      case Some(bytes) =>
        var packet := Parse(bytes);
        var event := EventOfPacket(packet, shadow);
        if index == 0 && !StartedFromReset(packet) then Driven(Err(NotFromReset(packet)), [bytes])
        else if packet.halt then Driven(Ok(ExecutionTrace([event], Completed(None))), [bytes])
        else
          PrependStep(bytes, event, DriveFrom(peer, program, index + 1, now,
                                              ShadowAfter(shadow, Number(packet.rdAddr), packet.rdWdata)))
  }

  function Resume(packets: seq<PacketBytes>, events: seq<CommitEvent>, rest: Driven): Driven {
    Driven(
      match rest.outcome
      case Ok(trace) => Ok(ExecutionTrace(events + trace.events, trace.end))
      case Err(error) => Err(error),
      packets + rest.packets)
  }

  lemma ResumeAfterStep(
    packets: seq<PacketBytes>, events: seq<CommitEvent>, packet: PacketBytes, event: CommitEvent, rest: Driven)
    ensures Resume(packets, events, PrependStep(packet, event, rest)) ==
        Resume(packets + [packet], events + [event], rest)
  {
    assert packets + ([packet] + rest.packets) == (packets + [packet]) + rest.packets;
    if rest.outcome.Ok? {
      var tail := rest.outcome.value.events;
      assert events + ([event] + tail) == (events + [event]) + tail;
    }
  }

  lemma ResumeFromNothing(drive: Driven)
    ensures Resume([], [], drive) == drive
  {
    if drive.outcome.Ok? {
      assert [] + drive.outcome.value.events == drive.outcome.value.events;
    }
    assert [] + drive.packets == drive.packets;
  }

  lemma ResumeStops(packets: seq<PacketBytes>, events: seq<CommitEvent>, last: seq<PacketBytes>, error: DriveError)
    ensures Resume(packets, events, Driven(Err(error), last)) == Driven(Err(error), packets + last)
    ensures packets + [] == packets
  {
  }

  lemma ResumeEnds(
    packets: seq<PacketBytes>, events: seq<CommitEvent>, last: seq<PacketBytes>, final: seq<CommitEvent>, end: TraceEnd)
    ensures Resume(packets, events, Driven(Ok(ExecutionTrace(final, end)), last)) ==
            Driven(Ok(ExecutionTrace(events + final, end)), packets + last)
  {
  }

  class Session {
    const peer: Peer
    var sent: seq<U64>
    var rawPackets: seq<PacketBytes>

    constructor (peer: Peer)
      ensures this.peer == peer && sent == [] && rawPackets == []
    {
      this.peer := peer;
      sent := [];
      rawPackets := [];
    }

    method Send(command: bv64, instruction: U32)
      modifies this`sent
      ensures sent == old(sent) + [CommandWord(command, instruction)]
    {
      sent := sent + [CommandWord(command, instruction)];
    }

    /** Read one packet; keep its raw bytes before decoding them. */
    method Receive() returns (packet: Option<V1Packet>)
      modifies this`rawPackets
      ensures match peer(sent)
        case None => packet == None && rawPackets == old(rawPackets)
        case Some(bytes) => packet == Some(Parse(bytes)) && rawPackets == old(rawPackets) + [bytes]
    {
      match peer(sent) {
        case None => packet := None;
        case Some(bytes) =>
          rawPackets := rawPackets + [bytes];
          packet := Some(Parse(bytes));
      }
    }

    method Drive(program: seq<U32>) returns (result: Result<ExecutionTrace, DriveError>)
      requires sent == []
      modifies this
      ensures Driven(result, rawPackets) == DriveFrom(peer, program, 0, [], Zeroed())
    {
      hide CommandWord, Parse, EventOfPacket, StartedFromReset, ShadowAfter, Number, Resume, PrependStep;
      rawPackets := [];
      var shadow := new RegisterShadow.Zeroed();
      var events := [];
      ghost var expected := DriveFrom(peer, program, 0, [], Zeroed());
      ResumeFromNothing(expected);
      for index := 0 to |program|
        invariant shadow.Valid() && fresh(shadow) && fresh(shadow.registers)
        invariant expected == Resume(rawPackets, events, DriveFrom(peer, program, index, sent, shadow.Contents()))
      {
        ghost var packets, registers := rawPackets, shadow.Contents();
        Send(INSTRUCTION, program[index]);
        ghost var now := sent;
        var packet := Receive();
        if packet.None? {
          ResumeStops(packets, events, [], SocketFailed(index));
          return Err(SocketFailed(index));
        }
        ghost var bytes := peer(now).value;
        if index == 0 && !StartedFromReset(packet.value) {
          ResumeStops(packets, events, [bytes], NotFromReset(packet.value));
          return Err(NotFromReset(packet.value));
        }
        var event := IntoEvent(packet.value, shadow);
        if packet.value.halt {
          ResumeEnds(packets, events, [bytes], [event], Completed(None));
          return Ok(ExecutionTrace(events + [event], Completed(None)));
        }
        ResumeAfterStep(packets, events, bytes, event, DriveFrom(peer, program, index + 1, now, shadow.Contents()));
        events := events + [event];
      }
      ghost var packets := rawPackets;
      Send(END_OF_TRACE, U32(0));
      var last := Receive();
      if last.None? {
        ResumeStops(packets, events, [], SocketFailed(|program|));
        return Err(SocketFailed(|program|));
      }
      ghost var bytes := peer(sent).value;
      if !last.value.halt {
        ResumeStops(packets, events, [bytes], NoFinalHalt(last.value));
        return Err(NoFinalHalt(last.value));
      }
      ResumeEnds(packets, events, [bytes], [], InjectionComplete);
      assert events + [] == events;
      return Ok(ExecutionTrace(events, InjectionComplete));
    }
  }

  // ---- Whatever the peer does ----

  /** A completed session holds one raw packet per event and one more, one event per word, and began
      at reset; a session that saw `rvfi_halt` holds exactly one packet per event. */
  lemma {:induction false} PacketsCountEvents(peer: Peer, program: seq<U32>, index: nat, sent: seq<U64>, shadow: Regs)
    requires index <= |program|
    ensures var drive := DriveFrom(peer, program, index, sent, shadow);
      drive.outcome.Ok? ==>
        var ExecutionTrace(events, end) := drive.outcome.value;
        && (end == InjectionComplete <==> |drive.packets| == |events| + 1)
        && (end == InjectionComplete ==> |events| == |program| - index)
        && (end != InjectionComplete ==> |drive.packets| == |events| && end == Completed(None))
        && (index == 0 && program != [] ==> StartedFromReset(Parse(drive.packets[0])))
    decreases |program| - index
  {
    hide Parse, EventOfPacket, CommandWord, StartedFromReset, ShadowAfter, Number;
    if index < |program| {
      var now := sent + [CommandWord(INSTRUCTION, program[index])];
      if peer(now).Some? {
        var packet := Parse(peer(now).value);
        PacketsCountEvents(peer, program, index + 1, now, ShadowAfter(shadow, Number(packet.rdAddr), packet.rdWdata));
      }
    }
  }

  // ---- A peer that executes ----

  /** An emulator's architectural state and instruction count after the commands written so far. */
  datatype Emulation = Emulation(state: State, retired: nat)

  function EmulationAfter(meaning: Semantics, commands: seq<U64>): Emulation {
    if commands == [] then Emulation(ResetState(), 0)
    else
      var before := EmulationAfter(meaning, commands[..|commands| - 1]);
      var last := commands[|commands| - 1];
      if CommandOf(last) == INSTRUCTION then
        var word := NormalizeInstructionWidth(InstructionOf(last));
        Emulation(After(before.state, meaning(word, before.state.registers, before.state.pc)), before.retired + 1)
      else before
  }

  /** The packet for one executed word: the register it wrote, or x0. */
  function PacketOf(order: nat, word: U32, before: State, outcome: Outcome): V1Packet {
    var (rd, value) := if outcome.Retired? then (outcome.rd, outcome.value) else (0, U64(0));
    V1Packet(ToU64(order), before.pc, After(before, outcome).pc, ZeroExtend32(NormalizeInstructionWidth(word)), value,
             U64(0), U64(0), U64(0), U8(0), U8(0), RegisterByte(rd), outcome.Trapped?, outcome.Halted?, false)
  }

  const FINAL_PACKET :=
    V1Packet(U64(0), U64(0), U64(0), U64(0), U64(0), U64(0), U64(0), U64(0), U8(0), U8(0), U8(0), false, true, false)

  const NOTHING := Ignored(U64(0), U64(0), U8(0), U8(0))

  /** Answer every injected instruction with its execution packet, everything else with the final one. */
  function Emulator(meaning: Semantics): Peer {
    (commands: seq<U64>) =>
      if commands == [] then None
      else
        var before := EmulationAfter(meaning, commands[..|commands| - 1]);
        var last := commands[|commands| - 1];
        if CommandOf(last) == INSTRUCTION then
          var word := InstructionOf(last);
          var outcome := meaning(NormalizeInstructionWidth(word), before.state.registers, before.state.pc);
          Some(Serialize(PacketOf(before.retired, word, before.state, outcome), NOTHING))
        else Some(Serialize(FINAL_PACKET, NOTHING))
  }

  /** What an executing emulator reports: no window, and a trap does not stop it. */
  function SailTrace(meaning: Semantics, words: seq<U32>, order: nat, state: State): ExecutionTrace
    decreases |words|
  {
    if words == [] then ExecutionTrace([], InjectionComplete)
    else
      var outcome := meaning(NormalizeInstructionWidth(words[0]), state.registers, state.pc);
      var after := After(state, outcome);
      var event := Injection.EventOf(order, words[0], state, after, outcome.Trapped?, outcome.Halted?);
      if outcome.Halted? then ExecutionTrace([event], Completed(None))
      else
        var rest := SailTrace(meaning, words[1..], order + 1, after);
        ExecutionTrace([event] + rest.events, rest.end)
  }

  lemma WriteToZero(registers: Regs)
    ensures Write(registers, 0, U64(0)) == registers
  {
  }

  /** The packet observer and the state observer see the same event, and the shadow keeps up. */
  lemma PacketsShowStateChanges(order: nat, word: U32, before: State, outcome: Outcome)
    ensures var packet := PacketOf(order, word, before, outcome); var after := After(before, outcome);
      && EventOfPacket(packet, before.registers) ==
         Injection.EventOf(order, word, before, after, outcome.Trapped?, outcome.Halted?)
      && ShadowAfter(before.registers, Number(packet.rdAddr), packet.rdWdata) == after.registers
  {
    hide ToU64, TruncateTo32, ZeroExtend32, Number, RegisterByte;
    hide ChangedRegisters, ZeroExtend8, Observed, ShadowAfter, Write;
    var (rd, value) := if outcome.Retired? then (outcome.rd, outcome.value) else (0, U64(0));
    TruncationUndoesExtension(NormalizeInstructionWidth(word));
    NormalizationKeepsExactly(word);
    ObserversAgreeOnAStep(before.registers, rd, value);
    WriteToZero(before.registers);
  }

  lemma EmulatorAnswersAnInstruction(meaning: Semantics, sent: seq<U64>, word: U32)
    ensures var before := EmulationAfter(meaning, sent); var now := sent + [CommandWord(INSTRUCTION, word)];
      var outcome := meaning(NormalizeInstructionWidth(word), before.state.registers, before.state.pc);
      && Emulator(meaning)(now).Some?
      && Parse(Emulator(meaning)(now).value) == PacketOf(before.retired, word, before.state, outcome)
      && EmulationAfter(meaning, now) == Emulation(After(before.state, outcome), before.retired + 1)
  {
    hide Parse, Serialize, PacketOf, CommandWord, CommandOf, InstructionOf, NormalizeInstructionWidth, After;
    InjectionCommandDecodes(word);
    var before := EmulationAfter(meaning, sent);
    var outcome := meaning(NormalizeInstructionWidth(word), before.state.registers, before.state.pc);
    ParseUndoesSerialize(PacketOf(before.retired, word, before.state, outcome), NOTHING);
    assert (sent + [CommandWord(INSTRUCTION, word)])[..|sent|] == sent;
  }

  lemma EmulatorAnswersTheEnd(meaning: Semantics, sent: seq<U64>)
    ensures var now := sent + [CommandWord(END_OF_TRACE, U32(0))];
      Emulator(meaning)(now).Some? && Parse(Emulator(meaning)(now).value).halt
  {
    hide Parse, Serialize, PacketOf, CommandWord, CommandOf, InstructionOf, NormalizeInstructionWidth, After;
    EndCommandDecodes();
    ParseUndoesSerialize(FINAL_PACKET, NOTHING);
    assert (sent + [CommandWord(END_OF_TRACE, U32(0))])[..|sent|] == sent;
  }

  lemma PacketHeader(order: nat, word: U32, before: State, outcome: Outcome)
    ensures var packet := PacketOf(order, word, before, outcome);
      packet.halt == outcome.Halted? && packet.order == ToU64(order) && packet.pcRdata == before.pc
          && ToU64(0) == U64(0)
  {
  }

  /** A session with an emulator that starts from reset returns exactly the emulator's trace. */
  lemma {:induction false} DrivingAnEmulator(
    meaning: Semantics, program: seq<U32>, index: nat, sent: seq<U64>, state: State)
    requires index <= |program| && EmulationAfter(meaning, sent) == Emulation(state, index)
    requires index == 0 ==> state == ResetState()
    ensures DriveFrom(Emulator(meaning), program, index, sent, state.registers).outcome ==
            Ok(SailTrace(meaning, program[index..], index, state))
    decreases |program| - index
  {
    hide Emulator, Parse, PacketOf, CommandWord, EmulationAfter, EventOfPacket, Injection.EventOf, ShadowAfter, Number;
    hide NormalizeInstructionWidth, After;
    if index == |program| {
      EmulatorAnswersTheEnd(meaning, sent);
    } else {
      var word := program[index];
      assert program[index..][0] == word && program[index..][1..] == program[index + 1..];
      var outcome := meaning(NormalizeInstructionWidth(word), state.registers, state.pc);
      var after := After(state, outcome);
      EmulatorAnswersAnInstruction(meaning, sent, word);
      PacketsShowStateChanges(index, word, state, outcome);
      PacketHeader(index, word, state, outcome);
      DrivingAnEmulator(meaning, program, index + 1, sent + [CommandWord(INSTRUCTION, word)], after);
    }
  }

  // ---- The two drivers ----

  /** Under one instruction-set meaning the CKB-VM driver's events are always a prefix of the Sail
      session's, and the two traces are equal exactly when the CKB-VM run completed. */
  lemma {:induction false} DriversAgree(meaning: Semantics, words: seq<U32>, order: nat, state: State)
    ensures var ckb := Injection.Reference(meaning, words, order, state).trace;
            var sail := SailTrace(meaning, words, order, state);
      ckb.events <= sail.events && (ckb == sail <==> ckb.end == InjectionComplete)
    decreases |words|
  {
    hide Injection.EventOf, Injection.InWindow, NormalizeInstructionWidth, After;
    if words != [] && Injection.InWindow(state.pc) {
      var outcome := meaning(NormalizeInstructionWidth(words[0]), state.registers, state.pc);
      DriversAgree(meaning, words[1..], order + 1, After(state, outcome));
    }
  }
}
