/** The two models of `from_str_radix`, on bit vectors for words and bytes and on numbers, are one. */
module Radix {
  import opened Words
  import Hex
  import opened Numbers

  /** The largest value of a byte or of a word. */
  predicate IsLimit(limit: bv32) { limit == 0xff || limit == Hex.U32_MAX }

  /** The number a word denotes. */
  function NumberOf(value: bv32): nat { value as nat }

  function DigitNumber(digit: bv4): nat { digit as nat }

  lemma DigitsAgree(c: char)
    ensures match Hex.DigitValue(c)
      case None => Digit(c, 16) == None
      case Some(digit) => Digit(c, 16) == Some(DigitNumber(digit))
  {
    if '0' <= c <= '9' {
    } else if 'a' <= c <= 'f' {
    } else if 'A' <= c <= 'F' {
    }
  }

  lemma ShiftIsTimesSixteen(value: bv32, digit: bv4)
    requires value <= 0x0fff_ffff
    ensures ((value << 4) | (digit as bv32)) as nat == (value as nat) * 16 + (digit as nat)
  {
  }

  lemma LimitsInDigits(value: bv32)
    ensures value <= 0xf <==> value as nat <= 0xf
    ensures value <= 0x0fff_ffff <==> value as nat <= 0x0fff_ffff
  {
  }

  lemma LimitsShifted()
    ensures Hex.HighDigits(0xff) == 0xf && Hex.HighDigits(Hex.U32_MAX) == 0x0fff_ffff
    ensures NumberOf(0xff) == 0xff && NumberOf(Hex.U32_MAX) == 0xffff_ffff
  {
  }

  /** The check before a digit is appended is the check that the result fits. */
  lemma OverflowIsForeseen(value: bv32, digit: bv4, limit: bv32)
    requires IsLimit(limit)
    ensures value > Hex.HighDigits(limit) <==> NumberOf(value) * 16 + DigitNumber(digit) > NumberOf(limit)
    ensures value <= Hex.HighDigits(limit) ==>
              NumberOf(Hex.AppendDigit(value, digit)) == NumberOf(value) * 16 + DigitNumber(digit)
  {
    hide Hex.HighDigits;
    LimitsShifted();
    LimitsInDigits(value);
    if value <= Hex.HighDigits(limit) {
      ShiftIsTimesSixteen(value, digit);
    }
  }

  /** Both read digits left to right: what is read so far, and what the rest makes of it. */
  lemma {:induction false} DigitsReadAlike(read: string, text: string, value: bv32, limit: bv32)
    requires IsLimit(limit) && AllDigits(read, 16) && Denotes(read, 16) == NumberOf(value) <= NumberOf(limit)
    ensures AllDigits(text, 16) ==> AllDigits(read + text, 16)
    ensures match Hex.ParseDigits(text, value, limit)
      case None => !AllDigits(text, 16) || Denotes(read + text, 16) > NumberOf(limit)
      case Some(word) => AllDigits(text, 16) && Denotes(read + text, 16) == NumberOf(word) <= NumberOf(limit)
    decreases |text|
  {
    hide Denotes, AllDigits, Digit, Hex.DigitValue, Hex.AppendDigit, Hex.HighDigits, IsLimit, NumberOf, DigitNumber;
    if text == [] {
      NoDigits(16);
      assert read + text == read;
    } else {
      FirstDigit(text, 16);
      DigitsAgree(text[0]);
      if Digit(text[0], 16).Some? {
        var digit := Hex.DigitValue(text[0]).value;
        OneMoreDigit(read, text[0], 16);
        OverflowIsForeseen(value, digit, limit);
        var longer := read + [text[0]];
        assert read + text == longer + text[1..];
        if AllDigits(text, 16) {
          DenotesGrows(longer, text[1..], 16);
        }
        if value <= Hex.HighDigits(limit) {
          DigitsReadAlike(longer, text[1..], Hex.AppendDigit(value, digit), limit);
        }
      }
    }
  }

  lemma NothingRead()
    ensures AllDigits("", 16) && Denotes("", 16) == NumberOf(0) == 0
  {
  }

  /** For words and for bytes the bit-vector parser reads exactly what the 64-bit parser reads within the limit, and
      to the same number. */
  lemma RadixParsersAgree(text: string, limit: bv32)
    requires IsLimit(limit)
    ensures match Hex.FromStrRadix16(text, limit)
      case Some(word) => FromStrRadix(text, 16) == Some(NumberOf(word)) && NumberOf(word) <= NumberOf(limit)
      case None => FromStrRadix(text, 16) == None || FromStrRadix(text, 16).value > NumberOf(limit)
  {
    hide Denotes, CheckedDigits, Hex.ParseDigits, NumberOf;
    AcceptedExactly(text, 16);
    NothingRead();
    LimitsShifted();
    var digits := WithoutPlus(text);
    assert "" + digits == digits;
    DigitsReadAlike("", digits, 0, limit);
  }

  /** An artifact's word and a packet's byte may carry a sign. */
  lemma SignedTextsAreRead()
    ensures Hex.Reads("0x+1", U32(1)) && Hex.FromStrRadix16("+f", 0xff) == Some(0xf)
  {
    assert "0x+1"[..2] == "0x" && "0x+1"[2..] == "+1" && "+1"[1..] == "1" && "1"[1..] == "";
    assert "+f"[1..] == "f" && "f"[1..] == "";
    assert Hex.ParseDigits("1", 0, Hex.U32_MAX) == Some(1);
    assert Hex.ParseDigits("f", 0, 0xff) == Some(0xf);
  }
}
