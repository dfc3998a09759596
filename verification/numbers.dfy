/** Unsigned 64-bit number texts: radix parsing with overflow, and the truncating RVFI forms. */
module Numbers {
  import opened Words
  import opened Text

  type Base = value: nat | 2 <= value <= 16 witness 2

  /** `to_digit`, for radices up to sixteen. */
  function Digit(c: char, base: Base): Option<nat> {
    var value :=
      if '0' <= c <= '9' then c as nat - '0' as nat
      else if 'a' <= c <= 'f' then c as nat - 'a' as nat + 10
      else if 'A' <= c <= 'F' then c as nat - 'A' as nat + 10
      else base;
    if value < base then Some(value) else None
  }

  predicate AllDigits(text: string, base: Base) { forall c :: c in text ==> Digit(c, base).Some? }

  /** The number a digit string denotes, of any length. */
  function Denotes(text: string, base: Base): nat
    requires AllDigits(text, base)
  {
    if text == [] then 0
    else Denotes(text[..|text| - 1], base) * base + Digit(text[|text| - 1], base).value
  }

  function Power(base: Base, n: nat): nat { if n == 0 then 1 else Power(base, n - 1) * base }

  lemma Bounded(high: nat, bound: nat, base: Base, low: nat)
    requires high < bound && low < base
    ensures high * base + low < bound * base
  {
    assert (high + 1) * base <= bound * base;
  }

  lemma {:induction false} DenotesIsBounded(text: string, base: Base)
    requires AllDigits(text, base)
    ensures Denotes(text, base) < Power(base, |text|)
  {
    if text != [] {
      DenotesIsBounded(text[..|text| - 1], base);
      Bounded(Denotes(text[..|text| - 1], base), Power(base, |text| - 1), base, Digit(text[|text| - 1], base).value);
    }
  }

  lemma Rearrange(a: nat, p: nat, b: nat, base: Base, d: nat)
    ensures (a * p + b) * base + d == a * (p * base) + (b * base + d)
  {
  }

  lemma {:induction false} DenotesSplits(high: string, low: string, base: Base)
    requires AllDigits(high, base) && AllDigits(low, base)
    ensures AllDigits(high + low, base)
    ensures Denotes(high + low, base) == Denotes(high, base) * Power(base, |low|) + Denotes(low, base)
    decreases |low|
  {
    if low == [] {
      assert high + low == high;
    } else {
      var init, last := low[..|low| - 1], Digit(low[|low| - 1], base).value;
      DenotesSplits(high, init, base);
      assert (high + low)[..|high + low| - 1] == high + init;
      Rearrange(Denotes(high, base), Power(base, |init|), Denotes(init, base), base, last);
    }
  }

  /** Digits left to right with checked arithmetic: `None` on a bad digit or at the first overflow. */
  function CheckedDigits(text: string, base: Base, value: nat): Option<nat>
    decreases |text|
  {
    if text == [] then Some(value)
    else
      match Digit(text[0], base)
      case None => None
      case Some(digit) =>
        if value * base + digit >= TWO_TO_THE_64 then None else CheckedDigits(text[1..], base, value * base + digit)
  }

  /** `u64::from_str_radix`: one leading plus sign is accepted, no digits at all are not. */
  function FromStrRadix(text: string, base: Base): Option<nat> {
    var digits := if text != [] && text[0] == '+' then text[1..] else text;
    if digits == [] then None else CheckedDigits(digits, base, 0)
  }

  lemma OneMoreDigit(read: string, c: char, base: Base)
    requires AllDigits(read, base) && Digit(c, base).Some?
    ensures AllDigits(read + [c], base)
    ensures Denotes(read + [c], base) == Denotes(read, base) * base + Digit(c, base).value
  {
    assert (read + [c])[..|read + [c]| - 1] == read;
  }

  lemma NoDigits(base: Base)
    ensures AllDigits("", base)
  {
  }

  lemma FirstDigit(text: string, base: Base)
    requires text != []
    ensures AllDigits(text, base) <==> Digit(text[0], base).Some? && AllDigits(text[1..], base)
  {
    assert forall c :: c in text <==> c == text[0] || c in text[1..];
  }

  lemma {:induction false} PowerIsPositive(base: Base, n: nat)
    ensures Power(base, n) >= 1
  {
    if n > 0 {
      PowerIsPositive(base, n - 1);
    }
  }

  lemma Grows(a: nat, p: nat, b: nat)
    requires p >= 1
    ensures a <= a * p + b
  {
    assert a * p == a + a * (p - 1);
  }

  lemma DenotesGrows(text: string, more: string, base: Base)
    requires AllDigits(text, base) && AllDigits(more, base)
    ensures AllDigits(text + more, base) && Denotes(text, base) <= Denotes(text + more, base)
  {
    hide Denotes, Power;
    DenotesSplits(text, more, base);
    PowerIsPositive(base, |more|);
    Grows(Denotes(text, base), Power(base, |more|), Denotes(more, base));
  }

  lemma {:induction false} CheckedDigitsSucceed(read: string, text: string, base: Base)
    requires AllDigits(read, base) && Denotes(read, base) < TWO_TO_THE_64
    ensures AllDigits(text, base) ==> AllDigits(read + text, base)
    ensures CheckedDigits(text, base, Denotes(read, base)) ==
            if AllDigits(text, base) && Denotes(read + text, base) < TWO_TO_THE_64 then Some(Denotes(read + text, base))
            else None
    decreases |text|
  {
    hide Denotes, Digit, AllDigits;
    if text == [] {
      NoDigits(base);
      assert read + text == read;
    } else {
      FirstDigit(text, base);
      if Digit(text[0], base).Some? {
        OneMoreDigit(read, text[0], base);
        var longer := read + [text[0]];
        assert read + text == longer + text[1..];
        if AllDigits(text, base) {
          DenotesGrows(longer, text[1..], base);
        }
        if Denotes(longer, base) < TWO_TO_THE_64 {
          CheckedDigitsSucceed(longer, text[1..], base);
        }
      }
    }
  }

  /** An unsigned digit string parses exactly when it denotes a 64-bit number, and to that number. */
  lemma FromStrRadixIsChecked(digits: string, base: Base)
    requires digits != [] && digits[0] != '+'
    ensures FromStrRadix(digits, base) ==
            if AllDigits(digits, base) && Denotes(digits, base) < TWO_TO_THE_64 then Some(Denotes(digits, base))
                else None
  {
    CheckedDigitsSucceed("", digits, base);
    assert "" + digits == digits;
  }

  /** The digits after one leading plus sign, or the text itself. */
  function WithoutPlus(text: string): string { if text != [] && text[0] == '+' then text[1..] else text }

  /** Exactly what `from_str_radix` accepts: digits that denote a 64-bit number, after at most one plus sign. */
  lemma AcceptedExactly(text: string, base: Base)
    ensures FromStrRadix(text, base) ==
            var digits := WithoutPlus(text);
            if digits != [] && AllDigits(digits, base) && Denotes(digits, base) < TWO_TO_THE_64
            then Some(Denotes(digits, base)) else None
  {
    var digits := WithoutPlus(text);
    CheckedDigitsSucceed("", digits, base);
    assert "" + digits == digits;
  }

  // ---- Tokens ----

  function UpToSpace(text: string): string {
    if text == [] || IsSpace(text[0]) then [] else [text[0]] + UpToSpace(text[1..])
  }

  /** `split_whitespace().next()`, empty when there is no token. */
  function FirstToken(raw: string): string { UpToSpace(TrimStart(raw)) }

  /** `replace('_', "")` */
  function WithoutUnderscores(text: string): string {
    if text == [] then [] else (if text[0] == '_' then [] else [text[0]]) + WithoutUnderscores(text[1..])
  }

  /** The last `count` characters, or all of them. */
  function Last(text: string, count: nat): (low: string)
    ensures |low| == if |text| < count then |text| else count
  {
    if |text| < count then text else text[|text| - count..]
  }

  predicate HasPrefix(text: string, prefix: string) { prefix <= text }

  function ParseToken(token: string): Option<nat> {
    if HasPrefix(token, "0x") || HasPrefix(token, "0X") then FromStrRadix(Last(token[2..], 16), 16)
    else if HasPrefix(token, "0b") || HasPrefix(token, "0B") then FromStrRadix(Last(token[2..], 64), 2)
    else FromStrRadix(token, 10)
  }

  /** `parse_number`: hexadecimal and binary keep their low 64 bits, decimal must fit. */
  function ParseNumber(raw: string): Option<nat> {
    if FirstToken(raw) == [] then None else ParseToken(WithoutUnderscores(FirstToken(raw)))
  }

  // ---- What the texts denote ----

  lemma PowersAgree()
    ensures Power(16, 16) == TWO_TO_THE_64 && Power(2, 64) == TWO_TO_THE_64
  {
    assert Power(16, 4) == 0x1_0000 && Power(16, 8) == 0x1_0000_0000 && Power(16, 12) == 0x1_0000_0000_0000;
    assert Power(2, 8) == 0x100 && Power(2, 16) == 0x1_0000 && Power(2, 24) == 0x100_0000;
    assert Power(2, 32) == 0x1_0000_0000 && Power(2, 40) == 0x100_0000_0000 && Power(2, 48) == 0x1_0000_0000_0000;
    assert Power(2, 56) == 0x100_0000_0000_0000;
  }

  lemma PlusIsNoDigit(base: Base)
    ensures Digit('+', base) == None && Denotes("", base) == 0 && AllDigits("", base)
  {
  }

  lemma {:induction false} PowerGrows(base: Base, m: nat, n: nat)
    requires m <= n
    ensures Power(base, m) <= Power(base, n)
  {
    if m < n {
      PowerGrows(base, m, n - 1);
      Grows(Power(base, n - 1), base, 0);
    }
  }

  lemma Residue(high: nat, low: nat)
    requires low < TWO_TO_THE_64
    ensures (high * TWO_TO_THE_64 + low) % TWO_TO_THE_64 == low
  {
  }

  /** Reading only the last digits of a number is reading it modulo 2^64. */
  lemma LastDigitsAreTheResidue(digits: string, base: Base, count: nat)
    requires digits != [] && AllDigits(digits, base) && count > 0 && Power(base, count) == TWO_TO_THE_64
    ensures FromStrRadix(Last(digits, count), base) == Some(Denotes(digits, base) % TWO_TO_THE_64)
  {
    hide FromStrRadix, Denotes, Power, Digit;
    var low := Last(digits, count);
    var high := digits[..|digits| - |low|];
    assert high + low == digits;
    assert low[0] in digits;
    PlusIsNoDigit(base);
    DenotesSplits(high, low, base);
    DenotesIsBounded(low, base);
    PowerGrows(base, |low|, count);
    if |digits| >= count {
      Residue(Denotes(high, base), Denotes(low, base));
    } else {
      assert high == [];
    }
    FromStrRadixIsChecked(low, base);
  }

  predicate Spaced(text: string) { forall c :: c in text ==> IsSpace(c) }

  predicate Unspaced(text: string) { forall c :: c in text ==> !IsSpace(c) }

  lemma {:induction false} TokenStops(token: string, after: string)
    requires Unspaced(token) && (after != [] ==> IsSpace(after[0]))
    ensures UpToSpace(token + after) == token
  {
    if token == [] {
      assert token + after == after;
    } else {
      assert token[0] in token;
      assert (token + after)[1..] == token[1..] + after;
      TokenStops(token[1..], after);
    }
  }

  lemma {:induction false} TokenIsFound(before: string, token: string, after: string)
    requires Spaced(before) && token != [] && Unspaced(token) && (after != [] ==> IsSpace(after[0]))
    ensures FirstToken(before + token + after) == token
    decreases |before|
  {
    var text := before + token + after;
    if before == [] {
      assert text == token + after;
      assert text[0] in token;
      TokenStops(token, after);
    } else {
      assert text[0] in before;
      assert text[1..] == before[1..] + token + after;
      TokenIsFound(before[1..], token, after);
    }
  }

  /** What a prefix and digits denote to the parser. */
  ghost predicate WellFormed(prefix: string, digits: string, base: Base) {
    && digits != [] && AllDigits(digits, base)
    && match base
       case 16 => prefix == "0x" || prefix == "0X"
       case 2 => prefix == "0b" || prefix == "0B"
       case 10 => prefix == ""
       case _ => false
  }

  lemma TokensParseToTheirValue(prefix: string, digits: string, base: Base)
    requires WellFormed(prefix, digits, base)
    ensures ParseToken(prefix + digits) ==
            if base != 10 then Some(Denotes(digits, base) % TWO_TO_THE_64)
            else if Denotes(digits, base) < TWO_TO_THE_64 then Some(Denotes(digits, base)) else None
  {
    hide FromStrRadix, Denotes, Last, Power;
    PowersAgree();
    if base == 10 {
      assert prefix + digits == digits;
      assert digits[0] in digits && (|digits| > 1 ==> digits[1] in digits);
      FromStrRadixIsChecked(digits, 10);
    } else {
      var token := prefix + digits;
      assert token[2..] == digits && prefix <= token && token[1] == prefix[1];
      assert forall p: string :: p <= token && |p| == 2 ==> p[1] == prefix[1];
      assert "0x"[1] == 'x' && "0X"[1] == 'X' && "0b"[1] == 'b' && "0B"[1] == 'B';
      LastDigitsAreTheResidue(digits, base, if base == 16 then 16 else 64);
    }
  }

  /** A well-formed hexadecimal or binary number of any length, with underscores anywhere and spaces around it,
      parses to its value modulo 2^64; a decimal parses when its value fits, and only then. */
  lemma NumbersParseToTheirValue(before: string, token: string, after: string, prefix: string, digits: string,
      base: Base)
    requires Spaced(before) && token != [] && Unspaced(token) && (after != [] ==> IsSpace(after[0]))
    requires WithoutUnderscores(token) == prefix + digits && WellFormed(prefix, digits, base)
    ensures ParseNumber(before + token + after) ==
            if base != 10 then Some(Denotes(digits, base) % TWO_TO_THE_64)
            else if Denotes(digits, base) < TWO_TO_THE_64 then Some(Denotes(digits, base)) else None
  {
    hide ParseToken, Denotes, FirstToken;
    TokenIsFound(before, token, after);
    TokensParseToTheirValue(prefix, digits, base);
  }

  /** Only the last sixteen characters are looked at: whatever stands before them, digits or not, is ignored. */
  lemma HighCharactersAreIgnored(high: string, low: string)
    requires |low| == 16
    ensures ParseToken("0x" + high + low) == FromStrRadix(low, 16)
  {
    hide FromStrRadix;
    var token := "0x" + high + low;
    assert token[2..] == high + low && "0x" <= token;
    assert (high + low)[|high + low| - 16..] == low;
  }

  /** The base a token is read in, and the part of it that is read. */
  function ReadPart(token: string): (string, Base) {
    if HasPrefix(token, "0x") || HasPrefix(token, "0X") then (Last(token[2..], 16), 16)
    else if HasPrefix(token, "0b") || HasPrefix(token, "0B") then (Last(token[2..], 64), 2)
    else (token, 10)
  }

  /** Exactly what a token is accepted for: the last sixteen characters of a hexadecimal, the last sixty-four of a
      binary and all of a decimal number are, after at most one plus sign, digits that denote a 64-bit number. */
  lemma TokensAcceptedExactly(token: string)
    ensures ParseToken(token) ==
            var (part, base) := ReadPart(token);
            var digits := WithoutPlus(part);
            if digits != [] && AllDigits(digits, base) && Denotes(digits, base) < TWO_TO_THE_64
            then Some(Denotes(digits, base)) else None
  {
    hide FromStrRadix, Denotes, AllDigits, Last;
    var (part, base) := ReadPart(token);
    AcceptedExactly(part, base);
  }

  lemma {:induction false} NoUnderscores(text: string)
    requires '_' !in text
    ensures WithoutUnderscores(text) == text
  {
    if text != [] {
      assert text[0] in text;
      NoUnderscores(text[1..]);
    }
  }

  /** A sign after the prefix is read as if it were not there. */
  lemma SignedHexadecimalIsRead()
    ensures ParseToken("0x+1") == Some(1) && ParseNumber(" 0x+1") == Some(1)
  {
    assert "0x" <= "0x+1" && "0x+1"[2..] == "+1" && "+1"[1..] == "1";
    assert Digit('1', 16) == Some(1) && "1"[1..] == "";
    assert FromStrRadix("+1", 16) == Some(1);
    TokenIsFound(" ", "0x+1", "");
    assert " " + "0x+1" + "" == " 0x+1";
    NoUnderscores("0x+1");
  }
}
