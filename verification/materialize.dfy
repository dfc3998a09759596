/** The compiler of 64-bit constants: ADDI and SLLI words that leave a value in a register. */
module Materialize {
  import opened Words
  import opened Isa
  import opened Encode

  predicate SmallChunk(chunk: U64) { chunk.bits <= 0x7ff }

  function Head(value: U64): (chunk: U64)
    ensures SmallChunk(chunk)
  {
    U64((value.bits >> 55) & 0x1ff)
  }

  function Chunk(value: U64, shift: bv6): (chunk: U64)
    ensures SmallChunk(chunk)
  {
    U64((value.bits >> shift) & 0x7ff)
  }

  predicate Small(chunks: seq<U64>) {
    forall i :: 0 <= i < |chunks| ==> SmallChunk(chunks[i])
  }

  /** The value cut at bits 55, 44, 33, 22 and 11, highest piece first. */
  function Chunks(value: U64): (chunks: seq<U64>)
    ensures |chunks| == 6 && Small(chunks)
  {
    [Head(value), Chunk(value, 44), Chunk(value, 33), Chunk(value, 22), Chunk(value, 11), Chunk(value, 0)]
  }

  /** The first nonzero chunk from `i` on, or the last chunk. */
  function First(chunks: seq<U64>, i: nat): (first: nat)
    requires i < |chunks|
    ensures i <= first < |chunks| && (first < |chunks| - 1 ==> chunks[first] != U64(0))
    ensures forall k :: i <= k < first ==> chunks[k] == U64(0)
    decreases |chunks| - i
  {
    if chunks[i] != U64(0) || i == |chunks| - 1 then i else First(chunks, i + 1)
  }

  /** A chunk as an `i32`; it is never negative. */
  function AsI32(chunk: U64): (bits: bv32)
    requires SmallChunk(chunk)
    ensures bits <= 0x7ff && SignExtend(bits) == chunk
  {
    chunk.bits as bv32
  }

  function Load(rd: Reg, chunk: U64): U32
    requires SmallChunk(chunk)
  {
    AddiWord(rd, 0, AsI32(chunk))
  }

  function ShiftWord(rd: Reg): U32 { SlliWord(rd, rd, 11) }

  function AddWordTo(rd: Reg, chunk: U64): U32
    requires SmallChunk(chunk)
  {
    AddiWord(rd, rd, AsI32(chunk))
  }

  function ShiftIn(rd: Reg, chunks: seq<U64>): seq<U32>
    requires Small(chunks)
  {
    if chunks == [] then [] else [ShiftWord(rd), AddWordTo(rd, chunks[0])] + ShiftIn(rd, chunks[1..])
  }

  function FromHead(rd: Reg, head: U64, rest: seq<U64>): seq<U32>
    requires rd != 0 && SmallChunk(head) && Small(rest)
  {
    [Load(rd, head)] + ShiftIn(rd, rest)
  }

  function FromChunks(rd: Reg, chunks: seq<U64>): seq<U32>
    requires rd != 0 && |chunks| > 0 && Small(chunks)
  {
    var first := First(chunks, 0);
    FromHead(rd, chunks[first], chunks[first + 1..])
  }

  function Program(rd: Reg, value: U64): seq<U32>
    requires rd != 0
  {
    FromChunks(rd, Chunks(value))
  }

  lemma ShiftInSplits(rd: Reg, chunks: seq<U64>)
    requires |chunks| > 0 && Small(chunks)
    ensures ShiftIn(rd, chunks) == [ShiftWord(rd)] + ([AddWordTo(rd, chunks[0])] + ShiftIn(rd, chunks[1..]))
  {
  }

  /** The words as the source pushes them: a load, then two words per remaining chunk. */
  method PushWords(rd: Reg, chunks: seq<U64>) returns (program: seq<U32>)
    requires rd != 0 && |chunks| > 0 && Small(chunks)
    ensures program == FromChunks(rd, chunks)
  {
    hide Load, ShiftWord, AddWordTo;
    var first := 0;
    while first < |chunks| - 1 && chunks[first] == U64(0)
      invariant first < |chunks| && First(chunks, first) == First(chunks, 0)
    {
      first := first + 1;
    }
    program := [Load(rd, chunks[first])];
    for i := first + 1 to |chunks|
      invariant program + ShiftIn(rd, chunks[i..]) == FromChunks(rd, chunks)
    {
      assert chunks[i..][0] == chunks[i] && chunks[i..][1..] == chunks[i + 1..];
      ShiftInSplits(rd, chunks[i..]);
      program := program + [ShiftWord(rd)];
      program := program + [AddWordTo(rd, chunks[i])];
    }
    assert program + ShiftIn(rd, chunks[|chunks|..]) == program;
  }

  method Build(rd: Reg, value: U64) returns (program: seq<U32>)
    requires rd != 0
    ensures program == Program(rd, value)
  {
    program := PushWords(rd, Chunks(value));
  }

  // ---- What running the program does ----

  function Append(high: U64, chunk: U64): U64 { Plus(ShiftLeft(high, 11), chunk) }

  /** Chunks appended to a running value, most significant first. */
  function Horner(high: U64, chunks: seq<U64>): U64
    decreases |chunks|
  {
    if chunks == [] then high else Horner(Append(high, chunks[0]), chunks[1..])
  }

  function Advance(pc: U64, words: nat): U64
    decreases words
  {
    if words == 0 then pc else Advance(Plus(pc, WORD_BYTES), words - 1)
  }

  lemma ZeroAppendsAway(chunk: U64)
    ensures Append(U64(0), chunk) == chunk
  {
  }

  lemma Reassemble(value: U64)
    ensures Append(Append(Append(Append(Append(Head(value), Chunk(value, 44)), Chunk(value, 33)),
                                        Chunk(value, 22)), Chunk(value, 11)), Chunk(value, 0)) == value
  {
  }

  /** Leading zero chunks can be dropped. */
  lemma {:induction false} SkipZeros(chunks: seq<U64>, i: nat)
    requires i < |chunks|
    ensures var first := First(chunks, i);
      Horner(U64(0), chunks[i..]) == Horner(chunks[first], chunks[first + 1..])
    decreases |chunks| - i
  {
    ZeroAppendsAway(chunks[i]);
    assert chunks[i..][1..] == chunks[i + 1..];
    if chunks[i] == U64(0) && i < |chunks| - 1 {
      SkipZeros(chunks, i + 1);
    }
  }

  lemma HornerStep(high: U64, chunks: seq<U64>)
    requires |chunks| > 0
    ensures Horner(high, chunks) == Horner(Append(high, chunks[0]), chunks[1..])
    ensures |chunks| > 1 ==> chunks[1..][1..] == chunks[2..]
    ensures |chunks| == 1 ==> Horner(high, chunks) == Append(high, chunks[0])
  {
  }

  lemma HornerOfSix(high: U64, chunks: seq<U64>)
    requires |chunks| == 6
    ensures Horner(high, chunks) ==
            Append(Append(Append(Append(Append(Append(high, chunks[0]), chunks[1]), chunks[2]), chunks[3]), chunks[4]),
                   chunks[5])
  {
    assert chunks == [chunks[0], chunks[1], chunks[2], chunks[3], chunks[4], chunks[5]];
    HornerStep(high, chunks);
    var high := Append(high, chunks[0]);
    HornerStep(high, chunks[1..]);
    high := Append(high, chunks[1]);
    HornerStep(high, chunks[2..]);
    high := Append(high, chunks[2]);
    HornerStep(high, chunks[3..]);
    high := Append(high, chunks[3]);
    HornerStep(high, chunks[4..]);
    high := Append(high, chunks[4]);
    HornerStep(high, chunks[5..]);
  }

  lemma ChunksReassemble(value: U64)
    ensures var chunks := Chunks(value); var first := First(chunks, 0);
      Horner(chunks[first], chunks[first + 1..]) == value
  {
    hide Append, Head, Chunk;
    var chunks := Chunks(value);
    SkipZeros(chunks, 0);
    assert chunks[0..] == chunks;
    HornerOfSix(U64(0), chunks);
    ZeroAppendsAway(chunks[0]);
    Reassemble(value);
  }

  // ---- Running the words ----

  lemma LoadStep(rd: Reg, chunk: U64, state: State)
    requires rd != 0 && SmallChunk(chunk)
    ensures RunWords(Execute, [Load(rd, chunk)], state) ==
            Some(State(state.registers[rd := chunk], Plus(state.pc, WORD_BYTES)))
  {
    DecodeAddi(rd, 0, AsI32(chunk));
  }

  lemma ShiftStep(rd: Reg, state: State)
    requires rd != 0
    ensures RunWords(Execute, [ShiftWord(rd)], state) ==
            Some(State(state.registers[rd := ShiftLeft(state.registers[rd], 11)], Plus(state.pc, WORD_BYTES)))
  {
    DecodeSlli(rd, rd, 11);
  }

  lemma AddStep(rd: Reg, chunk: U64, state: State)
    requires rd != 0 && SmallChunk(chunk)
    ensures RunWords(Execute, [AddWordTo(rd, chunk)], state) ==
            Some(State(state.registers[rd := Plus(state.registers[rd], chunk)], Plus(state.pc, WORD_BYTES)))
  {
    DecodeAddi(rd, rd, AsI32(chunk));
  }

  lemma Overwrite(registers: Regs, rd: Reg, first: U64, second: U64)
    ensures registers[rd := first][rd := second] == registers[rd := second]
  {
  }

  lemma AdvanceTwice(pc: U64, words: nat)
    ensures Advance(pc, words + 2) == Advance(Plus(Plus(pc, WORD_BYTES), WORD_BYTES), words)
  {
  }

  lemma {:induction false} ShiftInRuns(rd: Reg, chunks: seq<U64>, state: State)
    requires rd != 0 && Small(chunks)
    ensures RunWords(Execute, ShiftIn(rd, chunks), state) ==
            Some(State(state.registers[rd := Horner(state.registers[rd], chunks)],
                       Advance(state.pc, |ShiftIn(rd, chunks)|)))
  {
    hide ShiftWord, AddWordTo, Execute, Plus, ShiftLeft;
    if chunks == [] {
      assert state.registers[rd := state.registers[rd]] == state.registers;
    } else {
      ShiftStep(rd, state);
      var shifted := State(state.registers[rd := ShiftLeft(state.registers[rd], 11)], Plus(state.pc, WORD_BYTES));
      AddStep(rd, chunks[0], shifted);
      var added := State(shifted.registers[rd := Append(state.registers[rd], chunks[0])], Plus(shifted.pc, WORD_BYTES));
      ShiftInRuns(rd, chunks[1..], added);
      ShiftInSplits(rd, chunks);
      var end := State(state.registers[rd := Horner(state.registers[rd], chunks)],
                       Advance(state.pc, |ShiftIn(rd, chunks)|));
      Overwrite(state.registers, rd, ShiftLeft(state.registers[rd], 11), Append(state.registers[rd], chunks[0]));
      Overwrite(state.registers, rd, Append(state.registers[rd], chunks[0]), Horner(state.registers[rd], chunks));
      AdvanceTwice(state.pc, |ShiftIn(rd, chunks[1..])|);
      RunInTurn(Execute, [AddWordTo(rd, chunks[0])], ShiftIn(rd, chunks[1..]), shifted, added, end);
      RunInTurn(Execute, [ShiftWord(rd)], [AddWordTo(rd, chunks[0])] + ShiftIn(rd, chunks[1..]), state, shifted, end);
    }
  }

  lemma {:induction false} ShiftInLength(rd: Reg, chunks: seq<U64>)
    requires Small(chunks)
    ensures |ShiftIn(rd, chunks)| == 2 * |chunks|
  {
    if chunks != [] {
      ShiftInLength(rd, chunks[1..]);
    }
  }

  lemma FromHeadRuns(rd: Reg, head: U64, rest: seq<U64>, state: State)
    requires rd != 0 && SmallChunk(head) && Small(rest)
    ensures var words := FromHead(rd, head, rest);
      |words| == 2 * |rest| + 1 &&
      RunWords(Execute, words, state) ==
      Some(State(state.registers[rd := Horner(head, rest)], Advance(state.pc, |words|)))
  {
    hide Load, Append, Execute, Plus, ShiftWord, AddWordTo, ShiftLeft, Horner;
    var started := State(state.registers[rd := head], Plus(state.pc, WORD_BYTES));
    LoadStep(rd, head, state);
    ShiftInRuns(rd, rest, started);
    ShiftInLength(rd, rest);
    Overwrite(state.registers, rd, head, Horner(head, rest));
    var end := State(state.registers[rd := Horner(head, rest)], Advance(state.pc, |ShiftIn(rd, rest)| + 1));
    RunInTurn(Execute, [Load(rd, head)], ShiftIn(rd, rest), state, started, end);
  }

  /** From any register file the program leaves exactly `value` in `rd`, changes no other register,
      advances the PC by one word per instruction and is at most eleven words long. */
  lemma ProgramBuildsTheValue(rd: Reg, value: U64, state: State)
    requires rd != 0
    ensures |Program(rd, value)| <= 11
    ensures RunWords(Execute, Program(rd, value), state) ==
            Some(State(state.registers[rd := value], Advance(state.pc, |Program(rd, value)|)))
  {
    hide Chunks, Execute, Horner, Advance, RunWords, FromHead;
    var chunks := Chunks(value);
    var first := First(chunks, 0);
    FromHeadRuns(rd, chunks[first], chunks[first + 1..], state);
    ChunksReassemble(value);
  }

  // ---- The program is made of modelled instructions only ----

  ghost predicate AllDecode(words: seq<U32>) {
    forall k :: 0 <= k < |words| ==> !Decode(words[k]).Other?
  }

  /** Words that leave the PC at the next word. */
  ghost predicate Straight(words: seq<U32>) {
    forall k :: 0 <= k < |words| ==> !Decode(words[k]).Other? && !Decode(words[k]).Beq?
  }

  lemma {:induction false} ShiftInDecodes(rd: Reg, chunks: seq<U64>)
    requires Small(chunks)
    ensures Straight(ShiftIn(rd, chunks))
  {
    hide Decode, SlliWord, AddiWord;
    if chunks != [] {
      DecodeSlli(rd, rd, 11);
      DecodeAddi(rd, rd, AsI32(chunks[0]));
      ShiftInDecodes(rd, chunks[1..]);
    }
  }

  lemma ProgramDecodes(rd: Reg, value: U64)
    requires rd != 0
    ensures Straight(Program(rd, value)) && AllDecode(Program(rd, value))
  {
    hide Decode, AddiWord, Chunks;
    var chunks := Chunks(value);
    var first := First(chunks, 0);
    DecodeAddi(rd, 0, AsI32(chunks[first]));
    ShiftInDecodes(rd, chunks[first + 1..]);
  }

  lemma {:induction false} AdvanceAdds(pc: U64, m: nat, n: nat)
    ensures Advance(pc, m + n) == Advance(Advance(pc, m), n)
    decreases m
  {
    hide Plus;
    if m > 0 {
      AdvanceAdds(Plus(pc, WORD_BYTES), m - 1, n);
    }
  }
}
