/** The differential run as a whole: two drivers, one comparator, one program. */
module Differential {
  import opened Words
  import opened Isa
  import opened Event
  import opened Compare
  import opened Encode
  import Corpus
  import Dii
  import Injection
  import Materialize

  function CkbTrace(meaning: Semantics, words: seq<U32>): ExecutionTrace {
    Injection.Reference(meaning, words, 0, ResetState()).trace
  }

  function SailTrace(meaning: Semantics, words: seq<U32>): ExecutionTrace {
    Dii.SailTrace(meaning, words, 0, ResetState())
  }

  /** Two engines with one meaning pass the exact comparison exactly when the CKB-VM run completed. */
  lemma EqualEnginesPassExactly(meaning: Semantics, words: seq<U32>)
    requires words != []
    ensures CompareWithPolicy(CkbTrace(meaning, words), SailTrace(meaning, words), Exact).Passed() <==>
            CkbTrace(meaning, words).end == InjectionComplete
  {
    hide CompareWithPolicy, FirstDifference, Injection.Chained, Injection.Quiet;
    Dii.DriversAgree(meaning, words, 0, ResetState());
    Injection.RunsAreWellShaped(meaning, words, 0, ResetState());
    CompareReportsTheFirstDifference(CkbTrace(meaning, words), SailTrace(meaning, words), Exact);
  }

  // ---- Generated programs complete ----

  predicate Completes(words: seq<U32>, order: nat, state: State) {
    Injection.Reference(Execute, words, order, state).trace.end == InjectionComplete
  }

  /** The next `n` words from here all lie inside the window. */
  predicate Clear(pc: U64, n: nat)
    decreases n
  {
    n == 0 || (Injection.InWindow(pc) && Clear(Plus(pc, WORD_BYTES), n - 1))
  }

  lemma OpcodesAreFullWidth(bits: bv32)
    ensures Opcode(bits) == 0x33 || Opcode(bits) == 0x13 || Opcode(bits) == 0x63 ==> FullWidth(bits)
  {
  }

  lemma DecodedIsFullWidth(word: U32)
    requires !Decode(word).Other?
    ensures NormalizeInstructionWidth(word) == word
  {
    OpcodesAreFullWidth(word.bits);
  }

  lemma StraightStep(word: U32, state: State)
    requires !Decode(word).Other? && !Decode(word).Beq?
    ensures Execute(word, state.registers, state.pc).Retired?
    ensures After(state, Execute(word, state.registers, state.pc)).pc == Plus(state.pc, WORD_BYTES)
  {
    hide Decode, Plus, ShiftLeft, Read;
  }

  /** A straight prefix inside the window runs through: what completes after it completes with it. */
  lemma {:induction false} StraightRunsThrough(words: seq<U32>, rest: seq<U32>, order: nat, state: State, n: nat)
    requires Materialize.Straight(words) && Clear(state.pc, |words| + n)
    requires forall later: State, next: nat :: Clear(later.pc, n) ==> Completes(rest, next, later)
    ensures Completes(words + rest, order, state)
    decreases |words|
  {
    hide Execute, Decode, Plus, Injection.InWindow, NormalizeInstructionWidth, Injection.EventOf;
    if words == [] {
      assert words + rest == rest;
    } else {
      var all := words + rest;
      assert all[0] == words[0] && all[1..] == words[1..] + rest;
      DecodedIsFullWidth(words[0]);
      StraightStep(words[0], state);
      var after := After(state, Execute(words[0], state.registers, state.pc));
      StraightRunsThrough(words[1..], rest, order + 1, after, n);
      assert Completes(all[1..], order + 1, after);
    }
  }

  lemma OneStraightWordCompletes(word: U32, order: nat, state: State)
    requires !Decode(word).Other? && !Decode(word).Beq? && Clear(state.pc, 1)
    ensures Completes([word], order, state)
  {
    hide Execute, Decode, Plus, Injection.InWindow, NormalizeInstructionWidth, Injection.EventOf;
    DecodedIsFullWidth(word);
    StraightStep(word, state);
    assert [word][0] == word && [word][1..] == [];
    assert Completes([], order + 1, After(state, Execute(word, state.registers, state.pc)));
  }

  lemma TwiceFour(pc: bv64)
    ensures Add64(pc, SignExtend(8).bits) == Add64(Add64(pc, 4), 4)
  {
  }

  lemma TakenIsTwoWords(pc: U64)
    requires Clear(pc, 3)
    ensures Clear(Plus(pc, SignExtend(8)), 1) && Clear(Plus(pc, WORD_BYTES), 1) && Injection.InWindow(pc)
  {
    hide Injection.InWindow;
    TwiceFour(pc.bits);
  }

  /** The branch case: taken or not, the word after it still has room. */
  lemma BranchCompletes(order: nat, state: State)
    requires Clear(state.pc, 3)
    ensures Completes([BeqWord(1, 2, 8), AddiWord(3, 0, 1)], order, state)
  {
    hide Decode, Injection.EventOf, NormalizeInstructionWidth, BeqWord, AddiWord, Injection.InWindow, SignExtend, Plus;
    DecodeBeq(1, 2, 8);
    DecodeAddi(3, 0, 1);
    var branch, last := BeqWord(1, 2, 8), AddiWord(3, 0, 1);
    DecodedIsFullWidth(branch);
    TakenIsTwoWords(state.pc);
    var after := After(state, Execute(branch, state.registers, state.pc));
    assert after.pc == Plus(state.pc, WORD_BYTES) || after.pc == Plus(state.pc, SignExtend(8));
    OneStraightWordCompletes(last, order + 1, after);
    assert [branch, last][1..] == [last];
  }

  // ---- Room at the entry ----

  function Slot(i: bv8): U64 { U64(0x8000_0000 + 4 * (i as bv64)) }

  lemma SlotFits(i: bv8)
    requires i < 32
    ensures Injection.InWindow(Slot(i)) && Plus(Slot(i), WORD_BYTES) == Slot(i + 1)
  {
  }

  lemma {:induction false} SlotsAreClear(i: bv8, n: nat)
    requires i as nat + n <= 32
    ensures Clear(Slot(i), n)
    decreases n
  {
    hide Slot, Injection.InWindow, Plus;
    if n > 0 {
      SlotFits(i);
      SlotsAreClear(i + 1, n - 1);
    }
  }

  lemma EntryIsClear(n: nat)
    requires n <= 32
    ensures Clear(ENTRY, n)
  {
    hide Clear;
    SlotsAreClear(0, n);
    assert Slot(0) == ENTRY;
  }

  // ---- No false alarm ----

  lemma StraightProgramCompletes(setup: seq<U32>, word: U32)
    requires Materialize.Straight(setup) && |setup| <= 22 && !Decode(word).Other? && !Decode(word).Beq?
    ensures Completes(setup + [word], 0, ResetState())
  {
    hide Decode, Completes, Clear;
    EntryIsClear(|setup| + 1);
    forall later: State, next: nat | Clear(later.pc, 1)
      ensures Completes([word], next, later)
    {
      OneStraightWordCompletes(word, next, later);
    }
    StraightRunsThrough(setup, [word], 0, ResetState(), 1);
  }

  lemma BranchProgramCompletes(setup: seq<U32>)
    requires Materialize.Straight(setup) && |setup| <= 22
    ensures Completes(setup + [BeqWord(1, 2, 8), AddiWord(3, 0, 1)], 0, ResetState())
  {
    hide Decode, Completes, Clear, BeqWord, AddiWord;
    EntryIsClear(|setup| + 3);
    forall later: State, next: nat | Clear(later.pc, 3)
      ensures Completes([BeqWord(1, 2, 8), AddiWord(3, 0, 1)], next, later)
    {
      BranchCompletes(next, later);
    }
    StraightRunsThrough(setup, [BeqWord(1, 2, 8), AddiWord(3, 0, 1)], 0, ResetState(), 3);
  }

  lemma GeneratedCasesComplete(seed: U64, index: nat)
    requires index < 7
    ensures Completes(Corpus.GeneratedCases(seed)[index].instructions, 0, ResetState())
  {
    hide Completes, Decode, AddWord, AddiWord, BeqWord;
    hide Corpus.Draw, Corpus.Setup2, Materialize.Program, Signed12, Corpus.DrawnImmediate;
    var draw := (k: nat) => Corpus.Draw(seed, k);
    if index < 3 {
      Corpus.Setup2BuildsBothOperands(1, draw(2 * index), 2, draw(2 * index + 1), ResetState());
      DecodeAdd(3, 1, 2);
      StraightProgramCompletes(Corpus.Setup2(1, draw(2 * index), 2, draw(2 * index + 1)), AddWord(3, 1, 2));
    } else if index < 5 {
      var immediate := Corpus.DrawnImmediate(draw(2 * index + 1));
      Materialize.ProgramBuildsTheValue(1, draw(2 * index), ResetState());
      Materialize.ProgramDecodes(1, draw(2 * index));
      DecodeAddi(2, 1, immediate);
      StraightProgramCompletes(Materialize.Program(1, draw(2 * index)), AddiWord(2, 1, immediate));
    } else {
      var left, right := if index == 5 then draw(10) else draw(11), if index == 5 then draw(10) else draw(12);
      Corpus.Setup2BuildsBothOperands(1, left, 2, right, ResetState());
      BranchProgramCompletes(Corpus.Setup2(1, left, 2, right));
    }
  }

  /** No false alarm: for every seed, two engines that both implement the instruction set pass every generated case. */
  lemma GeneratedCasesPass(seed: U64, index: nat)
    requires index < 7
    ensures var words := Corpus.GeneratedCases(seed)[index].instructions;
      CompareWithPolicy(CkbTrace(Execute, words), SailTrace(Execute, words), Exact).Passed()
  {
    hide CompareWithPolicy, Dii.SailTrace, Injection.Reference, Corpus.CaseAt, Execute;
    GeneratedCasesComplete(seed, index);
    Corpus.GeneratedCasesMeanTheirDraws(seed, index);
    EqualEnginesPassExactly(Execute, Corpus.GeneratedCases(seed)[index].instructions);
  }
}
