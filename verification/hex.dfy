/** Hexadecimal words and packets: printing, and the parsers that read them back. */
module Hex {
  import opened Words
  import opened Text
  import opened Packet

  const DIGITS := "0123456789abcdef"

  /** The value of a hexadecimal digit, either case. */
  function DigitValue(c: char): Option<bv4> {
    if '0' <= c <= '9' then Some((c as int - '0' as int) as bv4)
    else if 'a' <= c <= 'f' then Some((c as int - 'a' as int + 10) as bv4)
    else if 'A' <= c <= 'F' then Some((c as int - 'A' as int + 10) as bv4)
    else None
  }

  function DigitOf(value: bv4): char { DIGITS[value as nat] }

  predicate IsLowerDigit(c: char) { '0' <= c <= '9' || 'a' <= c <= 'f' }

  lemma DigitRoundTrip(value: bv4)
    ensures DigitValue(DigitOf(value)) == Some(value) && IsLowerDigit(DigitOf(value))
  {
  }

  // ---- Numbers ----

  function AppendDigit(value: bv32, digit: bv4): bv32 { (value << 4) | (digit as bv32) }

  function HighDigits(value: bv32): bv32 { value >> 4 }

  function LowDigit(value: bv32): bv4 { (value & 0xf) as bv4 }

  lemma DigitsRebuild(value: bv32)
    ensures AppendDigit(HighDigits(value), LowDigit(value)) == value
  {
    assert AppendDigit(value >> 4, (value & 0xf) as bv4) == value;
  }

  lemma HighDigitsGrow(value: bv32, limit: bv32)
    requires value <= limit
    ensures HighDigits(value) <= HighDigits(limit) && HighDigits(value) <= limit
  {
  }

  /** The digits left to right, refusing a value above `limit` before it overflows. */
  function ParseDigits(text: string, value: bv32, limit: bv32): Option<bv32>
    decreases |text|
  {
    if text == [] then Some(value)
    else
      match DigitValue(text[0])
      case None => None
      case Some(digit) =>
        if value > HighDigits(limit) then None else ParseDigits(text[1..], AppendDigit(value, digit), limit)
  }

  /** `from_str_radix(text, 16)` for an unsigned type whose largest value is `limit`. A leading plus
      sign is accepted; no digits at all are not. */
  function FromStrRadix16(text: string, limit: bv32): Option<bv32> {
    var digits := if text != [] && text[0] == '+' then text[1..] else text;
    if digits == [] then None else ParseDigits(digits, 0, limit)
  }

  /** The low `count` hexadecimal digits of a value. */
  function HexDigits(value: bv32, count: nat): (digits: string)
    ensures |digits| == count && forall k :: 0 <= k < count ==> IsLowerDigit(digits[k])
    decreases count
  {
    if count == 0 then ""
    else
      DigitRoundTrip(LowDigit(value));
      HexDigits(HighDigits(value), count - 1) + [DigitOf(LowDigit(value))]
  }

  predicate Fits(value: bv32, count: nat)
    decreases count
  {
    if count == 0 then value == 0 else Fits(HighDigits(value), count - 1)
  }

  lemma {:induction false} ParseAppendedDigit(text: string, c: char, value: bv32, limit: bv32)
    ensures ParseDigits(text + [c], value, limit) ==
            match ParseDigits(text, value, limit)
            case None => None
            case Some(read) => ParseDigits([c], read, limit)
    decreases |text|
  {
    hide HighDigits, AppendDigit, DigitValue;
    if text == [] {
      assert text + [c] == [c];
    } else {
      assert (text + [c])[1..] == text[1..] + [c];
      var digit := DigitValue(text[0]);
      if digit.Some? && value <= HighDigits(limit) {
        ParseAppendedDigit(text[1..], c, AppendDigit(value, digit.value), limit);
      }
    }
  }

  lemma {:induction false} ParseUndoesPrint(value: bv32, count: nat, limit: bv32)
    requires Fits(value, count) && value <= limit
    ensures ParseDigits(HexDigits(value, count), 0, limit) == Some(value)
    decreases count
  {
    if count > 0 {
      hide HighDigits, AppendDigit, DigitValue, LowDigit, DigitOf;
      var high := HighDigits(value);
      HighDigitsGrow(value, limit);
      ParseUndoesPrint(high, count - 1, limit);
      ParseAppendedDigit(HexDigits(high, count - 1), DigitOf(LowDigit(value)), 0, limit);
      DigitRoundTrip(LowDigit(value));
      DigitsRebuild(value);
      assert [DigitOf(LowDigit(value))][1..] == [];
    }
  }

  lemma WordsFit(value: bv32)
    ensures Fits(value, 8)
  {
    assert value >> 4 >> 4 >> 4 >> 4 >> 4 >> 4 >> 4 >> 4 == 0;
  }

  lemma BytesFit(value: bv32)
    requires value <= 0xff
    ensures Fits(value, 2)
  {
    assert value >> 4 >> 4 == 0;
  }

  lemma PrintedNumbersReadBack(value: bv32, count: nat, limit: bv32)
    requires Fits(value, count) && value <= limit && count > 0
    ensures FromStrRadix16(HexDigits(value, count), limit) == Some(value)
  {
    hide Fits, ParseDigits;
    ParseUndoesPrint(value, count, limit);
    assert IsLowerDigit(HexDigits(value, count)[0]);
  }

  // ---- Instruction words ----

  const U32_MAX: bv32 := 0xffff_ffff

  /** `format!("0x{word:08x}")` */
  function HexWord(word: U32): string { "0x" + HexDigits(word.bits, 8) }

  function HexWords(instructions: seq<U32>): (words: seq<string>)
    ensures |words| == |instructions| && forall k :: 0 <= k < |words| ==> words[k] == HexWord(instructions[k])
  {
    seq(|instructions|, k requires 0 <= k < |instructions| => HexWord(instructions[k]))
  }

  datatype ReplayError = NotPrefixed(index: nat) | NotHexadecimal(index: nat) | NoInstructions | DisagreesWithCase

  predicate Prefixed(word: string) { |word| >= 2 && word[..2] == "0x" }

  /** The word's text parses to exactly this value. */
  predicate Reads(text: string, word: U32) {
    Prefixed(text) && FromStrRadix16(text[2..], U32_MAX) == Some(word.bits)
  }

  /** Rebuild the program of an artifact from its hexadecimal words. It is returned exactly when the
      recorded case is nonempty and every word reads back as the recorded instruction. */
  method ReplayProgram(hexWords: seq<string>, recorded: seq<U32>) returns (result: Result<seq<U32>, ReplayError>)
    ensures result.Ok? <==> recorded != [] && |hexWords| == |recorded| &&
                            forall k :: 0 <= k < |recorded| ==> Reads(hexWords[k], recorded[k])
    ensures result.Ok? ==> result.value == recorded
    ensures result.Err? && result.error.NotPrefixed? ==>
              result.error.index < |hexWords| && !Prefixed(hexWords[result.error.index])
    ensures result.Err? && result.error.NotHexadecimal? ==>
              var k := result.error.index;
              k < |hexWords| && Prefixed(hexWords[k]) && FromStrRadix16(hexWords[k][2..], U32_MAX).None?
  {
    hide FromStrRadix16;
    var instructions := [];
    for index := 0 to |hexWords|
      invariant |instructions| == index
      invariant forall k :: 0 <= k < index ==> Reads(hexWords[k], instructions[k])
    {
      if !Prefixed(hexWords[index]) {
        return Err(NotPrefixed(index));
      }
      match FromStrRadix16(hexWords[index][2..], U32_MAX) {
        case None => return Err(NotHexadecimal(index));
        case Some(bits) => instructions := instructions + [U32(bits)];
      }
    }
    if instructions == [] {
      return Err(NoInstructions);
    }
    if instructions != recorded {
      forall k | |hexWords| == |recorded| && 0 <= k < |recorded| && Reads(hexWords[k], recorded[k])
        ensures instructions[k] == recorded[k]
      {
      }
      return Err(DisagreesWithCase);
    }
    return Ok(instructions);
  }

  lemma PrintedWordsRead(word: U32)
    ensures Reads(HexWord(word), word)
  {
    hide FromStrRadix16;
    WordsFit(word.bits);
    PrintedNumbersReadBack(word.bits, 8, U32_MAX);
    assert HexWord(word)[2..] == HexDigits(word.bits, 8) && HexWord(word)[..2] == "0x";
  }

  /** The words printed for any case read back as that case, so a nonempty one is always replayable. */
  lemma PrintedProgramsRead(instructions: seq<U32>)
    ensures |HexWords(instructions)| == |instructions|
    ensures forall k :: 0 <= k < |instructions| ==> Reads(HexWords(instructions)[k], instructions[k])
  {
    forall k | 0 <= k < |instructions|
      ensures Reads(HexWords(instructions)[k], instructions[k])
    {
      PrintedWordsRead(instructions[k]);
    }
  }

  // ---- Packets ----

  const U8_MAX: bv32 := 0xff

  function ZeroExtendByte(byte: bv8): bv32 { byte as bv32 }

  function TruncateToByte(bits: bv32): bv8
    requires bits <= U8_MAX
  {
    bits as bv8
  }

  lemma ByteTruncates(byte: bv8)
    ensures ZeroExtendByte(byte) <= U8_MAX && TruncateToByte(ZeroExtendByte(byte)) == byte
  {
  }

  lemma AppendStaysSmall(value: bv32, digit: bv4)
    requires value <= HighDigits(U8_MAX)
    ensures AppendDigit(value, digit) <= U8_MAX
  {
  }

  lemma {:induction false} ParsedWithinLimit(text: string, value: bv32)
    requires value <= U8_MAX && ParseDigits(text, value, U8_MAX).Some?
    ensures ParseDigits(text, value, U8_MAX).value <= U8_MAX
    decreases |text|
  {
    if text != [] {
      hide AppendDigit, HighDigits;
      AppendStaysSmall(value, DigitValue(text[0]).value);
      ParsedWithinLimit(text[1..], AppendDigit(value, DigitValue(text[0]).value));
    }
  }

  /** `u8::from_str_radix(text, 16)` */
  function ParseByte(text: string): Option<U8> {
    match FromStrRadix16(text, U8_MAX)
    case None => None
    case Some(bits) =>
      ParsedWithinLimit(if text != [] && text[0] == '+' then text[1..] else text, 0);
      Some(U8(TruncateToByte(bits)))
  }

  /** `format!("{byte:02x}")` */
  function HexByte(byte: U8): (text: string)
    ensures |text| == 2 && IsLowerDigit(text[0]) && IsLowerDigit(text[1])
  {
    HexDigits(ZeroExtendByte(byte.bits), 2)
  }

  lemma PrintedByteReads(byte: U8)
    ensures ParseByte(HexByte(byte)) == Some(byte)
  {
    hide FromStrRadix16, HexDigits;
    ByteTruncates(byte.bits);
    BytesFit(ZeroExtendByte(byte.bits));
    PrintedNumbersReadBack(ZeroExtendByte(byte.bits), 2, U8_MAX);
  }

  lemma PlusIsNoDigit()
    ensures DigitValue('+').None?
  {
  }

  lemma OneDigit(c: char, value: bv32)
    requires value <= HighDigits(U8_MAX)
    ensures ParseDigits([c], value, U8_MAX).Some? <==> DigitValue(c).Some?
  {
    hide AppendDigit, DigitValue;
    assert [c][1..] == [];
  }

  lemma SmallValue(digit: bv4)
    ensures AppendDigit(0, digit) <= HighDigits(U8_MAX)
  {
  }

  /** Exactly which two characters count as a byte: two digits, or a plus sign and a digit. */
  lemma ByteTextsAccepted(text: string)
    requires |text| == 2
    ensures ParseByte(text).Some? <==> (DigitValue(text[0]).Some? || text[0] == '+') && DigitValue(text[1]).Some?
  {
    hide AppendDigit, DigitValue;
    assert DigitValue('+').None? by { PlusIsNoDigit(); }
    OneDigit(text[1], 0);
    assert text[1..] == [text[1]];
    if text[0] != '+' && DigitValue(text[0]).Some? {
      SmallValue(DigitValue(text[0]).value);
      OneDigit(text[1], AppendDigit(0, DigitValue(text[0]).value));
    }
  }

  /** One line of `hex_bytes`: two digits a byte. */
  function HexBytes(bytes: seq<U8>): (text: string)
    ensures |text| == 2 * |bytes| && forall k :: 0 <= k < |text| ==> IsLowerDigit(text[k])
  {
    if bytes == [] then "" else HexByte(bytes[0]) + HexBytes(bytes[1..])
  }

  function ParseBytes(text: string): (bytes: Option<seq<U8>>)
    requires |text| % 2 == 0
    ensures bytes.Some? ==> |bytes.value| == |text| / 2
    decreases |text|
  {
    if text == [] then Some([])
    else
      match ParseByte(text[..2])
      case None => None
      case Some(byte) =>
        match ParseBytes(text[2..])
        case None => None
        case Some(rest) => Some([byte] + rest)
  }

  lemma {:induction false} ParseUndoesHexBytes(bytes: seq<U8>)
    ensures ParseBytes(HexBytes(bytes)) == Some(bytes)
  {
    hide ParseByte, HexByte;
    if bytes != [] {
      var text := HexBytes(bytes);
      assert text[..2] == HexByte(bytes[0]) && text[2..] == HexBytes(bytes[1..]);
      PrintedByteReads(bytes[0]);
      ParseUndoesHexBytes(bytes[1..]);
      assert [bytes[0]] + bytes[1..] == bytes;
    }
  }

  datatype PacketError = WrongLength(line: nat) | NotHexadecimalLine(line: nat) | NoPackets

  predicate Skipped(line: string) { line == [] || line[0] == '#' }

  /** The packets of the lines from `number` on; comments and blank lines are skipped. */
  function ParsePacketLines(lines: seq<string>, number: nat): Result<seq<PacketBytes>, PacketError>
    requires number <= |lines|
    decreases |lines| - number
  {
    if number == |lines| then Ok([])
    else
      var line := Trim(lines[number]);
      if Skipped(line) then ParsePacketLines(lines, number + 1)
      else if |line| != 2 * PACKET_BYTES then Err(WrongLength(number))
      else
        match ParseBytes(line)
        case None => Err(NotHexadecimalLine(number))
        case Some(packet) =>
          match ParsePacketLines(lines, number + 1)
          case Err(error) => Err(error)
          case Ok(rest) => Ok([packet] + rest)
  }

  function Prepended(packets: seq<PacketBytes>, rest: Result<seq<PacketBytes>, PacketError>)
    : Result<seq<PacketBytes>, PacketError>
  {
    match rest
    case Err(error) => Err(error)
    case Ok(more) => Ok(packets + more)
  }

  function After(bytes: seq<U8>, rest: Option<seq<U8>>): Option<seq<U8>> {
    match rest
    case None => None
    case Some(more) => Some(bytes + more)
  }

  lemma AfterOneMore(bytes: seq<U8>, byte: U8, rest: Option<seq<U8>>)
    ensures After(bytes, After([byte], rest)) == After(bytes + [byte], rest)
    ensures After([], rest) == rest && After(bytes, Some([])) == Some(bytes)
  {
    assert bytes + [] == bytes;
    if rest.Some? {
      assert bytes + ([byte] + rest.value) == bytes + [byte] + rest.value && [] + rest.value == rest.value;
    }
  }

  lemma NextByte(line: string, at: nat)
    requires |line| % 2 == 0 && at % 2 == 0 && at < |line|
    ensures ParseBytes(line[at..]) == match ParseByte(line[at..at + 2])
      case None => None
      case Some(byte) => After([byte], ParseBytes(line[at + 2..]))
  {
    hide ParseByte;
    var rest := line[at..];
    assert rest[..2] == line[at..at + 2] && rest[2..] == line[at + 2..];
  }

  lemma AfterNothing(bytes: seq<U8>)
    ensures After(bytes, None) == None
  {
  }

  lemma NoBytes()
    ensures ParseBytes([]) == Some([])
  {
  }

  method ParseLine(line: string) returns (packet: Option<seq<U8>>)
    requires |line| == 2 * PACKET_BYTES
    ensures packet == ParseBytes(line)
  {
    hide ParseByte, ParseBytes, After;
    var bytes: seq<U8> := [];
    assert line[0..] == line;
    AfterOneMore([], U8(0), ParseBytes(line));
    for index := 0 to PACKET_BYTES
      invariant |bytes| == index && ParseBytes(line) == After(bytes, ParseBytes(line[2 * index..]))
    {
      NextByte(line, 2 * index);
      match ParseByte(line[2 * index..2 * index + 2]) {
        case None => AfterNothing(bytes); return None;
        case Some(byte) =>
          AfterOneMore(bytes, byte, ParseBytes(line[2 * index + 2..]));
          bytes := bytes + [byte];
      }
    }
    assert line[2 * PACKET_BYTES..] == [];
    AfterOneMore(bytes, U8(0), None);
    NoBytes();
    packet := Some(bytes);
  }

  lemma PrependedToNothing(rest: Result<seq<PacketBytes>, PacketError>)
    ensures Prepended([], rest) == rest
  {
    if rest.Ok? {
      assert [] + rest.value == rest.value;
    }
  }

  lemma PrependedAssociates(packets: seq<PacketBytes>, packet: PacketBytes, rest: Result<seq<PacketBytes>, PacketError>)
    ensures Prepended(packets, Prepended([packet], rest)) == Prepended(packets + [packet], rest)
  {
    if rest.Ok? {
      assert packets + ([packet] + rest.value) == packets + [packet] + rest.value;
    }
  }

  /** `parse_packet_hex`: at least one packet, or an error naming the first bad line. */
  method ParsePacketHex(text: string) returns (result: Result<seq<PacketBytes>, PacketError>)
    ensures var parsed := ParsePacketLines(Lines(text), 0);
      result == if parsed == Ok([]) then Err(NoPackets) else parsed
  {
    hide ParseBytes, Trim;
    var lines := Lines(text);
    var packets: seq<PacketBytes> := [];
    PrependedToNothing(ParsePacketLines(lines, 0));
    for number := 0 to |lines|
      invariant ParsePacketLines(lines, 0) == Prepended(packets, ParsePacketLines(lines, number))
    {
      var line := Trim(lines[number]);
      if Skipped(line) {
        continue;
      }
      if |line| != 2 * PACKET_BYTES {
        return Err(WrongLength(number));
      }
      var packet := ParseLine(line);
      if packet.None? {
        return Err(NotHexadecimalLine(number));
      }
      PrependedAssociates(packets, packet.value, ParsePacketLines(lines, number + 1));
      packets := packets + [packet.value];
    }
    assert packets + [] == packets;
    if packets == [] {
      return Err(NoPackets);
    }
    return Ok(packets);
  }

  function PacketLines(packets: seq<PacketBytes>): (lines: seq<string>)
    ensures |lines| == |packets| && forall k :: 0 <= k < |lines| ==> lines[k] == HexBytes(packets[k])
  {
    seq(|packets|, k requires 0 <= k < |packets| => HexBytes(packets[k]))
  }

  lemma DigitsAreNotSpaces(line: string)
    requires forall k :: 0 <= k < |line| ==> IsLowerDigit(line[k])
    ensures line != [] ==> !IsSpace(line[0]) && !IsSpace(line[|line| - 1]) && line[0] != '#' && line[|line| - 1] != '\r'
    ensures '\n' !in line
  {
  }

  lemma {:induction false} PrintedLinesParse(packets: seq<PacketBytes>, number: nat)
    requires number <= |packets|
    ensures ParsePacketLines(PacketLines(packets), number) == Ok(packets[number..])
    decreases |packets| - number
  {
    hide ParseBytes, HexBytes, Trim;
    if number < |packets| {
      var line := HexBytes(packets[number]);
      DigitsAreNotSpaces(line);
      TrimKeepsUnspaced(line);
      ParseUndoesHexBytes(packets[number]);
      PrintedLinesParse(packets, number + 1);
      assert packets[number..] == [packets[number]] + packets[number + 1..];
    } else {
      assert packets[number..] == [];
    }
  }

  /** Printing any nonempty list of packets, one line each, and parsing the text gives it back. */
  lemma PrintedPacketsReadBack(packets: seq<PacketBytes>)
    ensures ParsePacketLines(Lines(Unlines(PacketLines(packets))), 0) == Ok(packets)
  {
    forall k | 0 <= k < |packets|
      ensures '\n' !in PacketLines(packets)[k]
      ensures PacketLines(packets)[k] != [] ==> PacketLines(packets)[k][|PacketLines(packets)[k]| - 1] != '\r'
    {
      DigitsAreNotSpaces(HexBytes(packets[k]));
    }
    LinesUndoesUnlines(PacketLines(packets));
    PrintedLinesParse(packets, 0);
  }
}
