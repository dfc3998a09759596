/** Machine words: the number a `u64` denotes, and the wrapping cast from an index to one. */
module Words {
  datatype Option<+T> = None | Some(value: T)

  datatype Result<+T, +E> = Ok(value: T) | Err(error: E)

  const TWO_TO_THE_64: nat := 0x1_0000_0000_0000_0000

  // Machine integers are boxed bit vectors: a proof that does not look inside sees only a value.
  datatype U8 = U8(bits: bv8)

  datatype U32 = U32(bits: bv32)

  datatype U64 = U64(bits: bv64)

  function Add64(left: bv64, right: bv64): bv64 { left + right }

  /** `wrapping_add` */
  function Plus(left: U64, right: U64): U64 { U64(Add64(left.bits, right.bits)) }

  const MAXIMUM: bv64 := 0xffff_ffff_ffff_ffff

  predicate Odd(word: bv64) {
    word & 1 == 1
  }

  function Half(word: bv64): (half: bv64)
    ensures word != 0 ==> half < word
  {
    assert word != 0 ==> word >> 1 < word;
    word >> 1
  }

  function Successor(word: bv64): bv64 {
    word + 1
  }

  /** The number a 64-bit word denotes. */
  function Val(word: bv64): nat
    decreases word
  {
    if word == 0 then 0 else 2 * Val(Half(word)) + if Odd(word) then 1 else 0
  }

  function Next(word: U64): U64 { U64(Successor(word.bits)) }

  /** The cast of an unbounded index to `u64`: counting up from zero, wrapping. */
  function ToU64(n: nat): U64 {
    if n == 0 then U64(0) else Next(ToU64(n - 1))
  }

  function Value(word: U64): nat { Val(word.bits) }

  lemma ValUnfolds(word: bv64)
    ensures Val(word) == 2 * Val(Half(word)) + if Odd(word) then 1 else 0
  {
  }

  lemma OddCarries(word: bv64)
    requires Odd(word) && word != MAXIMUM
    ensures !Odd(Successor(word)) && Half(Successor(word)) == Successor(Half(word))
    ensures word != 0 && Half(word) != MAXIMUM
  {
  }

  lemma EvenDoesNotCarry(word: bv64)
    requires !Odd(word)
    ensures Odd(Successor(word)) && Half(Successor(word)) == Half(word)
  {
  }

  lemma {:induction false} ValOfSuccessor(word: bv64)
    requires word != MAXIMUM
    ensures Val(Successor(word)) == Val(word) + 1
    decreases word
  {
    ValUnfolds(word);
    ValUnfolds(Successor(word));
    if Odd(word) {
      OddCarries(word);
      ValOfSuccessor(Half(word));
    } else {
      EvenDoesNotCarry(word);
    }
  }

  lemma ValOfLowOnes(word: bv64)
    requires word & 0xf == 0xf
    ensures Val(word) == 16 * Val(word >> 4) + 15
  {
    assert (word >> 1) & 1 == 1 && (word >> 2) & 1 == 1 && (word >> 3) & 1 == 1;
    assert (word >> 1) >> 1 == word >> 2 && (word >> 2) >> 1 == word >> 3 && (word >> 3) >> 1 == word >> 4;
    ValUnfolds(word);
    ValUnfolds(word >> 1);
    ValUnfolds(word >> 2);
    ValUnfolds(word >> 3);
  }

  lemma ValOfMaximum()
    ensures Val(MAXIMUM) == TWO_TO_THE_64 - 1
  {
    ValOfLowOnes(0xffff_ffff_ffff_ffff);
    ValOfLowOnes(0x0fff_ffff_ffff_ffff);
    ValOfLowOnes(0x00ff_ffff_ffff_ffff);
    ValOfLowOnes(0x000f_ffff_ffff_ffff);
    ValOfLowOnes(0x0000_ffff_ffff_ffff);
    ValOfLowOnes(0x0000_0fff_ffff_ffff);
    ValOfLowOnes(0x0000_00ff_ffff_ffff);
    ValOfLowOnes(0x0000_000f_ffff_ffff);
    ValOfLowOnes(0x0000_0000_ffff_ffff);
    ValOfLowOnes(0x0000_0000_0fff_ffff);
    ValOfLowOnes(0x0000_0000_00ff_ffff);
    ValOfLowOnes(0x0000_0000_000f_ffff);
    ValOfLowOnes(0x0000_0000_0000_ffff);
    ValOfLowOnes(0x0000_0000_0000_0fff);
    ValOfLowOnes(0x0000_0000_0000_00ff);
    ValOfLowOnes(0x0000_0000_0000_000f);
  }

  lemma NextNumber(n: nat)
    ensures ToU64(n + 1) == Next(ToU64(n)) && ToU64(0) == U64(0)
  {
    hide Successor;
  }

  lemma ValOfNext(word: U64)
    requires word.bits != MAXIMUM
    ensures Value(Next(word)) == Value(word) + 1
  {
    hide Val, Successor;
    ValOfSuccessor(word.bits);
  }

  /** A count below 2^64 survives the cast, so the cast is injective there. */
  lemma {:induction false} ValToU64(n: nat)
    requires n < TWO_TO_THE_64
    ensures Value(ToU64(n)) == n
  {
    hide Val, Successor, Next, ToU64;
    if n == 0 {
      NextNumber(0);
      ValUnfolds(0);
    } else {
      NextNumber(n - 1);
      ValToU64(n - 1);
      ValOfMaximum();
      ValOfNext(ToU64(n - 1));
    }
  }

  lemma SuccessorIsCloser(word: bv64)
    requires word != MAXIMUM
    ensures MAXIMUM - Successor(word) < MAXIMUM - word
  {
  }

  lemma {:induction false} ValIsBounded(word: bv64)
    ensures Val(word) < TWO_TO_THE_64
    decreases MAXIMUM - word
  {
    hide Val;
    if word == MAXIMUM {
      ValOfMaximum();
    } else {
      SuccessorIsCloser(word);
      ValIsBounded(Successor(word));
      ValOfSuccessor(word);
    }
  }

  lemma PredecessorIsSmaller(word: bv64)
    requires word != 0
    ensures word - 1 < word && word - 1 != MAXIMUM && Successor(word - 1) == word
  {
  }

  /** Every word is the cast of the number it denotes. */
  lemma {:induction false} ToU64OfVal(word: bv64)
    ensures ToU64(Val(word)) == U64(word)
    decreases word
  {
    hide Val, Successor;
    if word == 0 {
      ValUnfolds(0);
    } else {
      PredecessorIsSmaller(word);
      var before := word - 1;
      ToU64OfVal(before);
      ValOfSuccessor(before);
      NextNumber(Val(before));
    }
  }

  lemma AddingOneWraps(word: bv64)
    ensures Val(Successor(word)) == (Val(word) + 1) % TWO_TO_THE_64
  {
    hide Val;
    ValIsBounded(Successor(word));
    if word == MAXIMUM {
      ValOfMaximum();
      ValUnfolds(0);
    } else {
      ValOfSuccessor(word);
    }
  }

  lemma TwoSuccessors(word: bv64)
    ensures U64(Successor(Successor(word))) == Plus(U64(word), U64(2))
  {
  }

  /** Adding two to the number modulo 2^64 is adding two to the word. */
  lemma AddingTwoWraps(word: bv64)
    ensures ToU64((Val(word) + 2) % TWO_TO_THE_64) == Plus(U64(word), U64(2))
  {
    hide Val, ToU64, Plus;
    AddingOneWraps(word);
    AddingOneWraps(Successor(word));
    ValIsBounded(word);
    ToU64OfVal(Successor(Successor(word)));
    TwoSuccessors(word);
  }

  lemma LowBit(word: bv64)
    ensures Odd(word) ==> word ^ 1 != MAXIMUM && Successor(word ^ 1) == word
    ensures !Odd(word) ==> word != MAXIMUM && Successor(word) == word ^ 1
  {
  }

  /** The neighbour in the same pair of numbers has the low bit flipped. */
  lemma FlippingTheLowBit(word: bv64)
    ensures ToU64(if Val(word) % 2 == 0 then Val(word) + 1 else Val(word) - 1) == U64(word ^ 1)
  {
    hide Val, ToU64, Successor;
    ValUnfolds(word);
    LowBit(word);
    if Odd(word) {
      ValOfSuccessor(word ^ 1);
    } else {
      ValOfSuccessor(word);
    }
    ToU64OfVal(word ^ 1);
  }
}
