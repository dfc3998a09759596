/** Seeded generation of injected programs: SplitMix64 and the cases it draws. */
module Corpus {
  import opened Words
  import opened Isa
  import opened Encode
  import opened Program
  import Materialize

  // ---- The generator ----

  const GAMMA: U64 := U64(0x9e37_79b9_7f4a_7c15)

  function XorShift30(z: bv64): bv64 { z ^ (z >> 30) }

  function XorShift27(z: bv64): bv64 { z ^ (z >> 27) }

  function XorShift31(z: bv64): bv64 { z ^ (z >> 31) }

  function FirstProduct(z: bv64): bv64 { z * 0xbf58_476d_1ce4_e5b9 }

  function SecondProduct(z: bv64): bv64 { z * 0x94d0_49bb_1331_11eb }

  function Mix(state: U64): U64 {
    U64(XorShift31(SecondProduct(XorShift27(FirstProduct(XorShift30(state.bits))))))
  }

  class SplitMix64 {
    var state: U64

    constructor (seed: U64)
      ensures state == seed
    {
      state := seed;
    }

    method Next() returns (value: U64)
      modifies this
      ensures state == Plus(old(state), GAMMA) && value == Mix(state)
    {
      state := Plus(state, GAMMA);
      var z := state.bits;
      z := FirstProduct(XorShift30(z));
      z := SecondProduct(XorShift27(z));
      value := U64(XorShift31(z));
    }
  }

  function UndoXorShift30(y: bv64): bv64 { y ^ (y >> 30) ^ (y >> 60) }

  function UndoXorShift27(y: bv64): bv64 { y ^ (y >> 27) ^ (y >> 54) }

  function UndoXorShift31(y: bv64): bv64 { y ^ (y >> 31) ^ (y >> 62) }

  /** The multipliers are odd, so each has an inverse modulo 2^64. */
  function UndoFirstProduct(y: bv64): bv64 { y * 0x96de_1b17_3f11_9089 }

  function UndoSecondProduct(y: bv64): bv64 { y * 0x3196_42b2_d24d_8ec3 }

  lemma XorShift30Inverts(z: bv64)
    ensures UndoXorShift30(XorShift30(z)) == z
  {
    assert UndoXorShift30(z ^ (z >> 30)) == z;
  }

  lemma XorShift27Inverts(z: bv64)
    ensures UndoXorShift27(XorShift27(z)) == z
  {
    assert UndoXorShift27(z ^ (z >> 27)) == z;
  }

  lemma XorShift31Inverts(z: bv64)
    ensures UndoXorShift31(XorShift31(z)) == z
  {
    assert UndoXorShift31(z ^ (z >> 31)) == z;
  }

  lemma FirstProductInverts(z: bv64)
    ensures UndoFirstProduct(FirstProduct(z)) == z
  {
    assert UndoFirstProduct(z * 0xbf58_476d_1ce4_e5b9) == z;
  }

  lemma SecondProductInverts(z: bv64)
    ensures UndoSecondProduct(SecondProduct(z)) == z
  {
    assert UndoSecondProduct(z * 0x94d0_49bb_1331_11eb) == z;
  }

  function Unmix(value: U64): U64 {
    U64(UndoXorShift30(UndoFirstProduct(UndoXorShift27(UndoSecondProduct(UndoXorShift31(value.bits))))))
  }

  /** The output function has an inverse: no two states produce the same draw. */
  lemma UnmixInvertsMix(state: U64)
    ensures Unmix(Mix(state)) == state
  {
    hide XorShift30, FirstProduct, XorShift27, SecondProduct, XorShift31;
    hide UndoXorShift30, UndoFirstProduct, UndoXorShift27, UndoSecondProduct, UndoXorShift31;
    var z := state.bits;
    XorShift30Inverts(z);
    FirstProductInverts(XorShift30(z));
    XorShift27Inverts(FirstProduct(XorShift30(z)));
    SecondProductInverts(XorShift27(FirstProduct(XorShift30(z))));
    XorShift31Inverts(SecondProduct(XorShift27(FirstProduct(XorShift30(z)))));
  }

  /** The generator state after `draws` calls, and the value call number `n` returns. */
  function StateAfter(seed: U64, draws: nat): U64 {
    if draws == 0 then seed else Plus(StateAfter(seed, draws - 1), GAMMA)
  }

  function Draw(seed: U64, n: nat): U64 {
    Mix(StateAfter(seed, n + 1))
  }

  function ScaleBits(k: bv64): bv64 { k * 0x9e37_79b9_7f4a_7c15 }

  function UnscaleBits(k: bv64): bv64 { k * 0xf1de_83e1_9937_733d }

  function Subtract64(a: bv64, b: bv64): bv64 { a - b }

  lemma ScaleInverts(k: bv64)
    ensures UnscaleBits(ScaleBits(k)) == k
  {
    assert UnscaleBits(k * 0x9e37_79b9_7f4a_7c15) == k;
  }

  lemma ScaleOfSuccessor(k: bv64)
    ensures ScaleBits(Successor(k)) == Add64(ScaleBits(k), 0x9e37_79b9_7f4a_7c15)
  {
    assert ScaleBits(k + 1) == Add64(k * 0x9e37_79b9_7f4a_7c15, 0x9e37_79b9_7f4a_7c15);
  }

  lemma AdditionIsAssociative(a: bv64, b: bv64, c: bv64)
    ensures Add64(Add64(a, b), c) == Add64(a, Add64(b, c))
  {
    assert Add64(a + b, c) == Add64(a, b + c);
  }

  lemma AdditionCancels(a: bv64, b: bv64)
    ensures Subtract64(Add64(a, b), a) == b && Subtract64(Add64(a, b), b) == a
  {
    assert Subtract64(a + b, a) == b && Subtract64(a + b, b) == a;
  }

  /** The state is `seed + draws * GAMMA` modulo 2^64. */
  function Progression(seed: U64, draws: nat): bv64 {
    Add64(seed.bits, ScaleBits(ToU64(draws).bits))
  }

  lemma {:induction false} StateIsProgression(seed: U64, draws: nat)
    ensures StateAfter(seed, draws).bits == Progression(seed, draws)
  {
    if draws == 0 {
      assert Add64(seed.bits, ScaleBits(0)) == seed.bits;
    } else {
      hide ScaleBits, Add64, Successor;
      var k := ToU64(draws - 1).bits;
      StateIsProgression(seed, draws - 1);
      ScaleOfSuccessor(k);
      AdditionIsAssociative(seed.bits, ScaleBits(k), GAMMA.bits);
    }
  }

  lemma {:induction false} FirstStepFirst(seed: U64, draws: nat)
    ensures StateAfter(seed, draws + 1) == StateAfter(Plus(seed, GAMMA), draws)
  {
    hide Plus;
    if draws > 0 {
      FirstStepFirst(seed, draws - 1);
    }
  }

  /** No draw repeats within 2^64 calls. */
  lemma DrawsDoNotRepeat(seed: U64, i: nat, j: nat)
    requires i < j < TWO_TO_THE_64
    ensures Draw(seed, i) != Draw(seed, j)
  {
    hide Mix, Unmix, ScaleBits, UnscaleBits, Add64, Subtract64, Plus;
    if Draw(seed, i) == Draw(seed, j) {
      var start := Plus(seed, GAMMA);
      FirstStepFirst(seed, i);
      FirstStepFirst(seed, j);
      UnmixInvertsMix(StateAfter(start, i));
      UnmixInvertsMix(StateAfter(start, j));
      StateIsProgression(start, i);
      StateIsProgression(start, j);
      AdditionCancels(start.bits, ScaleBits(ToU64(i).bits));
      AdditionCancels(start.bits, ScaleBits(ToU64(j).bits));
      ScaleInverts(ToU64(i).bits);
      ScaleInverts(ToU64(j).bits);
      ValToU64(i);
      ValToU64(j);
    }
  }

  /** Every draw is an injective function of the seed. */
  lemma DrawIsInjectiveInTheSeed(left: U64, right: U64, n: nat)
    requires Draw(left, n) == Draw(right, n)
    ensures left == right
  {
    hide Mix, Unmix, ScaleBits, Add64, Subtract64, Plus, ToU64;
    UnmixInvertsMix(StateAfter(left, n + 1));
    UnmixInvertsMix(StateAfter(right, n + 1));
    StateIsProgression(left, n + 1);
    StateIsProgression(right, n + 1);
    AdditionCancels(left.bits, ScaleBits(ToU64(n + 1).bits));
    AdditionCancels(right.bits, ScaleBits(ToU64(n + 1).bits));
  }

  // ---- Test programs ----

  datatype Family = ADD | ADDI | BEQ

  datatype TestProgram = TestProgram(
    id: string, family: Family, focusStep: nat, seed: Option<U64>, instructions: seq<U32>)

  function NewProgram(id: string, family: Family, setup: seq<U32>, tested: seq<U32>): TestProgram {
    TestProgram(id, family, |setup|, None, setup + tested)
  }

  function GeneratedProgram(
    id: string, family: Family, setup: seq<U32>, tested: seq<U32>, seed: U64): TestProgram {
    NewProgram(id, family, setup, tested).(seed := Some(seed))
  }

  function Setup2(rs1: Reg, first: U64, rs2: Reg, second: U64): seq<U32>
    requires rs1 != 0 && rs2 != 0
  {
    Materialize.Program(rs1, first) + Materialize.Program(rs2, second)
  }

  /** `(random % 4096) as i32 - 2048` */
  function DrawnImmediate(draw: U64): (immediate: bv32)
    ensures Signed12(immediate)
  {
    ((draw.bits % 4096) as bv32) - 2048
  }

  function Digit(index: nat): string
    requires index < 10
  {
    ["0123456789"[index]]
  }

  function RandomAdd(seed: U64, index: nat, left: U64, right: U64): TestProgram
    requires index < 10
  {
    GeneratedProgram("random-add-" + Digit(index), ADD, Setup2(1, left, 2, right), [AddWord(3, 1, 2)], seed)
  }

  function RandomAddi(seed: U64, index: nat, base: U64, immediate: bv32): TestProgram
    requires index < 10 && Signed12(immediate)
  {
    GeneratedProgram("random-addi-" + Digit(index), ADDI, Materialize.Program(1, base),
                     [AddiWord(2, 1, immediate)], seed)
  }

  function RandomBeq(seed: U64, index: nat, left: U64, right: U64): TestProgram
    requires index < 10
  {
    GeneratedProgram("random-beq-" + Digit(index), BEQ, Setup2(1, left, 2, right),
                     [BeqWord(1, 2, 8), AddiWord(3, 0, 1)], seed)
  }

  /** The seven seeded cases, each with the draws it consumes. */
  function CaseAt(seed: U64, index: nat): TestProgram
    requires index < 7
  {
    if index < 3 then RandomAdd(seed, index, Draw(seed, 2 * index), Draw(seed, 2 * index + 1))
    else if index < 5 then RandomAddi(seed, index - 3, Draw(seed, 2 * index), DrawnImmediate(Draw(seed, 2 * index + 1)))
    else if index == 5 then RandomBeq(seed, 0, Draw(seed, 10), Draw(seed, 10))
    else RandomBeq(seed, 1, Draw(seed, 11), Draw(seed, 12))
  }

  function GeneratedCases(seed: U64): seq<TestProgram> {
    seq(7, index requires 0 <= index < 7 => CaseAt(seed, index))
  }

  method DrawAdd(random: SplitMix64, seed: U64, index: nat) returns (program: TestProgram)
    requires index < 3 && random.state == StateAfter(seed, 2 * index)
    modifies random
    ensures program == CaseAt(seed, index) && random.state == StateAfter(seed, 2 * index + 2)
  {
    hide Mix, RandomAdd, RandomAddi, RandomBeq;
    var left := random.Next();
    var right := random.Next();
    program := RandomAdd(seed, index, left, right);
  }

  method DrawAddi(random: SplitMix64, seed: U64, index: nat) returns (program: TestProgram)
    requires index < 2 && random.state == StateAfter(seed, 2 * (3 + index))
    modifies random
    ensures program == CaseAt(seed, 3 + index) && random.state == StateAfter(seed, 2 * (3 + index) + 2)
  {
    hide Mix, RandomAdd, RandomAddi, RandomBeq;
    var base := random.Next();
    var draw := random.Next();
    program := RandomAddi(seed, index, base, DrawnImmediate(draw));
  }

  method DrawBeq(random: SplitMix64, seed: U64, index: nat) returns (program: TestProgram)
    requires index < 2 && random.state == StateAfter(seed, 10 + index)
    modifies random
    ensures program == CaseAt(seed, 5 + index) && random.state == StateAfter(seed, 11 + 2 * index)
  {
    hide Mix, RandomAdd, RandomAddi, RandomBeq;
    var left := random.Next();
    var right := left;
    if index % 2 != 0 {
      right := random.Next();
    }
    program := RandomBeq(seed, index, left, right);
  }

  /** The cases in the order the source draws and pushes them. */
  method Generate(seed: U64) returns (cases: seq<TestProgram>)
    ensures cases == GeneratedCases(seed)
  {
    hide CaseAt, Plus;
    var random := new SplitMix64(seed);
    cases := [];
    for index := 0 to 3
      invariant random.state == StateAfter(seed, 2 * index)
      invariant |cases| == index && forall k :: 0 <= k < |cases| ==> cases[k] == CaseAt(seed, k)
    {
      var program := DrawAdd(random, seed, index);
      cases := cases + [program];
    }
    for index := 0 to 2
      invariant random.state == StateAfter(seed, 2 * (3 + index))
      invariant |cases| == 3 + index && forall k :: 0 <= k < |cases| ==> cases[k] == CaseAt(seed, k)
    {
      var program := DrawAddi(random, seed, index);
      cases := cases + [program];
    }
    for index := 0 to 2
      invariant random.state == StateAfter(seed, if index == 2 then 13 else 10 + index)
      invariant |cases| == 5 + index && forall k :: 0 <= k < |cases| ==> cases[k] == CaseAt(seed, k)
    {
      var program := DrawBeq(random, seed, index);
      cases := cases + [program];
    }
  }

  // ---- What the cases execute ----

  /** The state a setup sequence leaves: the two operands in place, nothing else changed. */
  function AfterSetup2(rs1: Reg, first: U64, rs2: Reg, second: U64, state: State): State
    requires rs1 != 0 && rs2 != 0
  {
    State(state.registers[rs1 := first][rs2 := second],
          Materialize.Advance(state.pc, |Setup2(rs1, first, rs2, second)|))
  }

  lemma Setup2BuildsBothOperands(rs1: Reg, first: U64, rs2: Reg, second: U64, state: State)
    requires rs1 != 0 && rs2 != 0
    ensures RunWords(Execute, Setup2(rs1, first, rs2, second), state) ==
            Some(AfterSetup2(rs1, first, rs2, second, state))
    ensures Materialize.AllDecode(Setup2(rs1, first, rs2, second))
    ensures Materialize.Straight(Setup2(rs1, first, rs2, second)) && |Setup2(rs1, first, rs2, second)| <= 22
  {
    hide Materialize.Program, RunWords, Execute, Materialize.Advance, Decode;
    var one, two := Materialize.Program(rs1, first), Materialize.Program(rs2, second);
    var middle := State(state.registers[rs1 := first], Materialize.Advance(state.pc, |one|));
    Materialize.ProgramBuildsTheValue(rs1, first, state);
    Materialize.ProgramBuildsTheValue(rs2, second, middle);
    Materialize.AdvanceAdds(state.pc, |one|, |two|);
    RunInTurn(Execute, one, two, state, middle, AfterSetup2(rs1, first, rs2, second, state));
    Materialize.ProgramDecodes(rs1, first);
    Materialize.ProgramDecodes(rs2, second);
  }

  /** What the description of a case promises: its setup, run from reset, leaves the named operands,
      its focus word is the instruction under test, and both engines accept the whole program. */
  ghost predicate Faithful(program: TestProgram, focus: Instruction, x1: U64, x2: U64) {
    && program.focusStep < |program.instructions|
    && Decode(program.instructions[program.focusStep]) == focus
    && Validate(program.instructions).Ok?
    && var state := RunWords(Execute, program.instructions[..program.focusStep], ResetState());
       state.Some? && state.value.registers == Zeroed()[1 := x1][2 := x2]
  }

  lemma SupportedWhenDecoded(words: seq<U32>)
    requires Materialize.AllDecode(words)
    ensures Validate(words).Ok?
  {
    hide Decode, UnsupportedReason;
    forall k | 0 <= k < |words|
      ensures UnsupportedReason(words[k]).None?
    {
      DecodedWordsAreSupported(words[k]);
    }
  }

  lemma CaseFaithful(program: TestProgram, setup: seq<U32>, tested: seq<U32>, x1: U64, x2: U64)
    requires program.instructions == setup + tested && program.focusStep == |setup| && |tested| > 0
    requires Materialize.AllDecode(setup) && Materialize.AllDecode(tested)
    requires var state := RunWords(Execute, setup, ResetState());
      state.Some? && state.value.registers == Zeroed()[1 := x1][2 := x2]
    ensures Faithful(program, Decode(tested[0]), x1, x2)
  {
    hide Decode, Execute, RunWords, Validate;
    assert program.instructions[..|setup|] == setup;
    SupportedWhenDecoded(program.instructions);
  }

  lemma RandomAddFaithful(seed: U64, index: nat, left: U64, right: U64)
    requires index < 10
    ensures Faithful(RandomAdd(seed, index, left, right), Add(3, 1, 2), left, right)
  {
    hide Decode, Execute, RunWords, AddWord, Setup2, Faithful;
    Setup2BuildsBothOperands(1, left, 2, right, ResetState());
    DecodeAdd(3, 1, 2);
    CaseFaithful(RandomAdd(seed, index, left, right), Setup2(1, left, 2, right), [AddWord(3, 1, 2)], left, right);
  }

  lemma RandomAddiFaithful(seed: U64, index: nat, base: U64, immediate: bv32)
    requires index < 10 && Signed12(immediate)
    ensures Faithful(RandomAddi(seed, index, base, immediate), Addi(2, 1, SignExtend(immediate)), base, U64(0))
  {
    hide Decode, Execute, RunWords, AddiWord, Materialize.Program, Faithful, SignExtend, Signed12;
    Materialize.ProgramBuildsTheValue(1, base, ResetState());
    Materialize.ProgramDecodes(1, base);
    DecodeAddi(2, 1, immediate);
    assert Zeroed()[1 := base] == Zeroed()[1 := base][2 := U64(0)];
    CaseFaithful(RandomAddi(seed, index, base, immediate), Materialize.Program(1, base),
                 [AddiWord(2, 1, immediate)], base, U64(0));
  }

  lemma RandomBeqFaithful(seed: U64, index: nat, left: U64, right: U64)
    requires index < 10
    ensures Faithful(RandomBeq(seed, index, left, right), Beq(1, 2, SignExtend(8)), left, right)
  {
    hide Decode, Execute, RunWords, AddiWord, BeqWord, Setup2, Faithful, SignExtend;
    Setup2BuildsBothOperands(1, left, 2, right, ResetState());
    DecodeBeq(1, 2, 8);
    DecodeAddi(3, 0, 1);
    CaseFaithful(RandomBeq(seed, index, left, right), Setup2(1, left, 2, right),
                 [BeqWord(1, 2, 8), AddiWord(3, 0, 1)], left, right);
  }

  /** The operands and the instruction that case number `index` draws for itself. */
  ghost predicate MeansItsDraws(seed: U64, index: nat)
    requires index < 7
  {
    var program := GeneratedCases(seed)[index];
    if index < 3 then
      Faithful(program, Add(3, 1, 2), Draw(seed, 2 * index), Draw(seed, 2 * index + 1))
    else if index < 5 then
      Faithful(program, Addi(2, 1, SignExtend(DrawnImmediate(Draw(seed, 2 * index + 1)))), Draw(seed, 2 * index),
          U64(0))
    else if index == 5 then
      Faithful(program, Beq(1, 2, SignExtend(8)), Draw(seed, 10), Draw(seed, 10))
    else
      Faithful(program, Beq(1, 2, SignExtend(8)), Draw(seed, 11), Draw(seed, 12))
  }

  /** Every seeded case, for every seed, sets up and exercises exactly what it drew. */
  lemma GeneratedCasesMeanTheirDraws(seed: U64, index: nat)
    requires index < 7
    ensures MeansItsDraws(seed, index)
  {
    hide Faithful, Mix, Draw, SignExtend, DrawnImmediate, RandomAdd, RandomAddi, RandomBeq;
    if index < 3 {
      RandomAddFaithful(seed, index, Draw(seed, 2 * index), Draw(seed, 2 * index + 1));
    } else if index < 5 {
      RandomAddiFaithful(seed, index - 3, Draw(seed, 2 * index), DrawnImmediate(Draw(seed, 2 * index + 1)));
    } else if index == 5 {
      RandomBeqFaithful(seed, 0, Draw(seed, 10), Draw(seed, 10));
    } else {
      RandomBeqFaithful(seed, 1, Draw(seed, 11), Draw(seed, 12));
    }
  }

  lemma OperandsAreReadBack(first: U64, second: U64)
    ensures var end := RunWords(Execute, Setup2(1, first, 2, second) + [AddWord(3, 1, 2)], ResetState());
      end.Some? && end.value.registers[1] == first && end.value.registers[2] == second
  {
    hide Setup2, Decode, AddWord;
    var setup := Setup2(1, first, 2, second);
    var middle := AfterSetup2(1, first, 2, second, ResetState());
    Setup2BuildsBothOperands(1, first, 2, second, ResetState());
    DecodeAdd(3, 1, 2);
    RunConcatenation(Execute, setup, [AddWord(3, 1, 2)], ResetState());
    assert RunWords(Execute, [AddWord(3, 1, 2)], middle).Some?;
  }

  /** Two different seeds generate different instruction words, not merely different labels:
      equal words for the first case would leave equal values in x1. */
  lemma SeedsGiveDifferentWords(left: U64, right: U64)
    requires left != right
    ensures GeneratedCases(left)[0].instructions != GeneratedCases(right)[0].instructions
  {
    hide Mix, Draw, Execute, RunWords;
    var a, b := GeneratedCases(left)[0], GeneratedCases(right)[0];
    if a.instructions == b.instructions {
      OperandsAreReadBack(Draw(left, 0), Draw(left, 1));
      OperandsAreReadBack(Draw(right, 0), Draw(right, 1));
      DrawIsInjectiveInTheSeed(left, right, 0);
    }
  }
}
