/** Textual RVFI records: one `name: number` line per field, `rvfi_order` closing a record. */
module RvfiText {
  import opened Words
  import opened Event
  import opened Text
  import opened Numbers

  datatype ParseError = InvalidNumber | OutOfRange | Missing(field: string)

  /** The fields of the record being read. */
  datatype Fields = Fields(
    order: Option<U64>, instruction: Option<U32>, pcBefore: Option<U64>, pcAfter: Option<U64>,
    rdAddress: Option<Byte>, rdValue: Option<U64>, memoryAddress: Option<U64>,
    memoryReadMask: Option<U32>, memoryWriteMask: Option<U32>,
    memoryReadData: Option<U64>, memoryWriteData: Option<U64>,
    trap: bool, halt: bool)

  const EMPTY := Fields(None, None, None, None, None, None, None, None, None, None, None, false, false)

  function GetOr<T>(option: Option<T>, default: T): T { if option.Some? then option.value else default }

  // ---- One record ----

  function Writes(fields: Fields): seq<RegisterWrite> {
    if GetOr(fields.rdAddress, 0) == 0 || fields.rdValue.None? then []
    else [RegisterWrite(fields.rdAddress.value, fields.rdValue.value)]
  }

  function Accesses(fields: Fields): Result<seq<MemoryAccess>, ParseError> {
    var readMask, writeMask := GetOr(fields.memoryReadMask, U32(0)), GetOr(fields.memoryWriteMask, U32(0));
    if readMask == U32(0) && writeMask == U32(0) then Ok([])
    else if fields.memoryAddress.None? then Err(Missing("rvfi_mem_addr"))
    else Ok([MemoryAccess(fields.memoryAddress.value, readMask, writeMask,
                          GetOr(fields.memoryReadData, U64(0)), GetOr(fields.memoryWriteData, U64(0)))])
  }

  function EventOf(fields: Fields): Result<CommitEvent, ParseError> {
    if fields.order.None? then Err(Missing("rvfi_order"))
    else if fields.instruction.None? then Err(Missing("rvfi_insn"))
    else if fields.pcBefore.None? then Err(Missing("rvfi_pc_rdata"))
    else if fields.pcAfter.None? then Err(Missing("rvfi_pc_wdata"))
    else
      match Accesses(fields)
      case Err(error) => Err(error)
      case Ok(memory) =>
        Ok(CommitEvent(fields.order.value, fields.instruction.value, fields.pcBefore.value, fields.pcAfter.value,
                       Writes(fields), memory, fields.trap, fields.halt).Normalize())
  }

  // ---- One line ----

  datatype FieldName =
    | HaltField | TrapField | RdAddressField | MemoryWriteMaskField | MemoryReadMaskField | MemoryWriteDataField
    | MemoryReadDataField | MemoryAddressField | RdValueField | InstructionField | PcAfterField | PcBeforeField
    | OrderField | OtherField

  function FieldNamed(name: string): FieldName {
    match name
    case "rvfi_halt" => HaltField
    case "rvfi_trap" => TrapField
    case "rvfi_rd_addr" => RdAddressField
    case "rvfi_mem_wmask" => MemoryWriteMaskField
    case "rvfi_mem_rmask" => MemoryReadMaskField
    case "rvfi_mem_wdata" => MemoryWriteDataField
    case "rvfi_mem_rdata" => MemoryReadDataField
    case "rvfi_mem_addr" => MemoryAddressField
    case "rvfi_rd_wdata" => RdValueField
    case "rvfi_insn" => InstructionField
    case "rvfi_pc_wdata" => PcAfterField
    case "rvfi_pc_rdata" => PcBeforeField
    case "rvfi_order" => OrderField
    case _ => OtherField
  }

  /** A line that names an RVFI field, with the text of its number. */
  datatype Entry = Entry(field: FieldName, number: string)

  const PREFIX := "rvfi_"

  /** Trim the line, split it at its first colon, trim the name; other lines are skipped. */
  function EntryOf(line: string): Option<Entry> {
    var text := Trim(line);
    var colon := Find(text, ':', 0);
    if colon == |text| then None
    else
      var name := Trim(text[..colon]);
      if PREFIX <= name then Some(Entry(FieldNamed(name), text[colon + 1..])) else None
  }

  predicate IsOrderLine(line: string) { EntryOf(line).Some? && EntryOf(line).value.field == OrderField }

  const TWO_TO_THE_32: nat := 0x1_0000_0000

  /** `narrow::<u32>` and `narrow::<u8>`: refused, never truncated. */
  function NarrowWord(value: nat): Option<U32> { if value < TWO_TO_THE_32 then Some(U32(value as bv32)) else None }

  function NarrowByte(value: nat): Option<Byte> { if value < 256 then Some(value) else None }

  function Assign(fields: Fields, field: FieldName, value: nat): Result<Fields, ParseError> {
    match field
    case HaltField => Ok(fields.(halt := value != 0))
    case TrapField => Ok(fields.(trap := value != 0))
    case RdAddressField =>
      if NarrowByte(value).Some? then Ok(fields.(rdAddress := NarrowByte(value))) else Err(OutOfRange)
    case MemoryWriteMaskField =>
      if NarrowWord(value).Some? then Ok(fields.(memoryWriteMask := NarrowWord(value))) else Err(OutOfRange)
    case MemoryReadMaskField =>
      if NarrowWord(value).Some? then Ok(fields.(memoryReadMask := NarrowWord(value))) else Err(OutOfRange)
    case MemoryWriteDataField => Ok(fields.(memoryWriteData := Some(ToU64(value))))
    case MemoryReadDataField => Ok(fields.(memoryReadData := Some(ToU64(value))))
    case MemoryAddressField => Ok(fields.(memoryAddress := Some(ToU64(value))))
    case RdValueField => Ok(fields.(rdValue := Some(ToU64(value))))
    case InstructionField =>
      if NarrowWord(value).Some? then Ok(fields.(instruction := NarrowWord(value))) else Err(OutOfRange)
    case PcAfterField => Ok(fields.(pcAfter := Some(ToU64(value))))
    case PcBeforeField => Ok(fields.(pcBefore := Some(ToU64(value))))
    case OrderField => Ok(fields.(order := Some(ToU64(value))))
    case OtherField => Ok(fields)
  }

  /** What one line does to the record being read. */
  function AfterLine(fields: Fields, line: string): Result<Fields, ParseError> {
    match EntryOf(line)
    case None => Ok(fields)
    case Some(Entry(field, number)) =>
      match ParseNumber(number)
      case None => Err(InvalidNumber)
      case Some(value) => Assign(fields, field, value)
  }

  // ---- The parse ----

  datatype Parsed = Parsed(events: seq<CommitEvent>, rest: Fields)

  type Outcome = Result<Parsed, ParseError>

  function Before(events: seq<CommitEvent>, outcome: Outcome): Outcome {
    match outcome
    case Err(error) => Err(error)
    case Ok(parsed) => Ok(Parsed(events + parsed.events, parsed.rest))
  }

  /** Read the lines, starting from a partly read record. */
  function ParseLines(fields: Fields, lines: seq<string>): Outcome
    decreases |lines|
  {
    if lines == [] then Ok(Parsed([], fields))
    else
      match AfterLine(fields, lines[0])
      case Err(error) => Err(error)
      case Ok(next) =>
        if !IsOrderLine(lines[0]) then ParseLines(next, lines[1..])
        else
          match EventOf(next)
          case Err(error) => Err(error)
          case Ok(event) => Before([event], ParseLines(EMPTY, lines[1..]))
  }

  function ParseText(text: string): Outcome { ParseLines(EMPTY, Lines(text)) }

  class EventBuilder {
    var fields: Fields

    constructor ()
      ensures fields == EMPTY
    {
      fields := EMPTY;
    }

    /** The event of the record read so far; the builder is reset only when there is one. */
    method Finish() returns (event: Result<CommitEvent, ParseError>)
      modifies this
      ensures event == EventOf(old(fields))
      ensures fields == if event.Ok? then EMPTY else old(fields)
    {
      event := EventOf(fields);
      if event.Ok? {
        fields := EMPTY;
      }
    }

    /** `Ok(true)` when the line closes the record. */
    method Accept(line: string) returns (closes: Result<bool, ParseError>)
      modifies this
      ensures match AfterLine(old(fields), line)
        case Err(error) => closes == Err(error) && fields == old(fields)
        case Ok(next) => closes == Ok(IsOrderLine(line)) && fields == next
    {
      hide EntryOf, ParseNumber, Assign;
      var entry := EntryOf(line);
      if entry.None? {
        return Ok(false);
      }
      var value := ParseNumber(entry.value.number);
      if value.None? {
        return Err(InvalidNumber);
      }
      var next := Assign(fields, entry.value.field, value.value);
      if next.Err? {
        return Err(next.error);
      }
      fields := next.value;
      return Ok(entry.value.field == OrderField);
    }
  }

  lemma NothingBefore(outcome: Outcome)
    ensures Before([], outcome) == outcome
  {
    if outcome.Ok? {
      assert [] + outcome.value.events == outcome.value.events;
    }
  }

  lemma BeforeTwice(first: seq<CommitEvent>, second: seq<CommitEvent>, outcome: Outcome)
    ensures Before(first, Before(second, outcome)) == Before(first + second, outcome)
  {
    if outcome.Ok? {
      assert first + (second + outcome.value.events) == (first + second) + outcome.value.events;
    }
  }

  method ParseRvfiText(text: string) returns (result: Result<seq<CommitEvent>, ParseError>)
    ensures match ParseText(text)
      case Err(error) => result == Err(error)
      case Ok(parsed) => result == Ok(parsed.events)
  {
    hide AfterLine, IsOrderLine, EventOf, Lines;
    var lines := Lines(text);
    var builder := new EventBuilder();
    var events := [];
    assert lines[0..] == lines;
    NothingBefore(ParseText(text));
    for index := 0 to |lines|
      invariant ParseText(text) == Before(events, ParseLines(builder.fields, lines[index..]))
    {
      assert lines[index..][1..] == lines[index + 1..];
      var closes := builder.Accept(lines[index]);
      if closes.Err? {
        return Err(closes.error);
      }
      if closes.value {
        var event := builder.Finish();
        if event.Err? {
          return Err(event.error);
        }
        BeforeTwice(events, [event.value], ParseLines(EMPTY, lines[index + 1..]));
        events := events + [event.value];
      }
    }
    assert lines[|lines|..] == [] && events + [] == events;
    return Ok(events);
  }

  // ---- Records are read separately ----

  /** Lines can be cut anywhere: the second part goes on from the record the first part left. */
  lemma {:induction false} ParseContinues(fields: Fields, first: seq<string>, second: seq<string>)
    ensures ParseLines(fields, first + second) ==
            match ParseLines(fields, first)
            case Err(error) => Err(error)
            case Ok(parsed) => Before(parsed.events, ParseLines(parsed.rest, second))
    decreases |first|
  {
    hide AfterLine, IsOrderLine, EventOf;
    if first == [] {
      assert first + second == second;
      NothingBefore(ParseLines(fields, second));
    } else {
      assert (first + second)[1..] == first[1..] + second;
      var next := AfterLine(fields, first[0]);
      if next.Ok? {
        if !IsOrderLine(first[0]) {
          ParseContinues(next.value, first[1..], second);
        } else {
          var event := EventOf(next.value);
          if event.Ok? {
            ParseContinues(EMPTY, first[1..], second);
            var rest := ParseLines(EMPTY, first[1..]);
            if rest.Ok? {
              BeforeTwice([event.value], rest.value.events, ParseLines(rest.value.rest, second));
            }
          }
        }
      }
    }
  }

  /** At a record boundary parsing distributes over concatenation. */
  lemma TextDistributes(first: string, second: string)
    requires first == [] || first[|first| - 1] == '\n'
    requires ParseText(first).Ok? && ParseText(first).value.rest == EMPTY
    ensures ParseText(first + second) == Before(ParseText(first).value.events, ParseText(second))
  {
    hide Lines, ParseLines;
    LinesDistribute(first, second);
    ParseContinues(EMPTY, Lines(first), Lines(second));
  }

  function OrderLines(lines: seq<string>): nat {
    if lines == [] then 0 else (if IsOrderLine(lines[0]) then 1 else 0) + OrderLines(lines[1..])
  }

  /** One event per order line, in a parse that succeeds. */
  lemma {:induction false} OneEventPerOrderLine(fields: Fields, lines: seq<string>)
    requires ParseLines(fields, lines).Ok?
    ensures |ParseLines(fields, lines).value.events| == OrderLines(lines)
    decreases |lines|
  {
    hide AfterLine, IsOrderLine, EventOf;
    if lines != [] {
      var next := AfterLine(fields, lines[0]).value;
      OneEventPerOrderLine(if IsOrderLine(lines[0]) then EMPTY else next, lines[1..]);
    }
  }

  /** A record: lines of which only the last one is an order line. */
  predicate IsRecord(lines: seq<string>) {
    lines != [] && forall k :: 0 <= k < |lines| ==> (IsOrderLine(lines[k]) <==> k == |lines| - 1)
  }

  /** A record leaves nothing behind: after it the builder is empty, whatever it started from. */
  lemma {:induction false} RecordsLeaveNothing(fields: Fields, lines: seq<string>)
    requires IsRecord(lines) && ParseLines(fields, lines).Ok?
    ensures ParseLines(fields, lines).value.rest == EMPTY && |ParseLines(fields, lines).value.events| == 1
    decreases |lines|
  {
    hide AfterLine, IsOrderLine, EventOf;
    if |lines| > 1 {
      RecordsLeaveNothing(AfterLine(fields, lines[0]).value, lines[1..]);
    } else {
      assert lines[1..] == [];
    }
  }

  function Flatten(records: seq<seq<string>>): seq<string> {
    if records == [] then [] else records[0] + Flatten(records[1..])
  }

  lemma NoLines()
    ensures ParseLines(EMPTY, []) == Ok(Parsed([], EMPTY))
  {
  }

  /** No field of a record reaches another one: the k-th event is the event of the k-th record read on its own,
      and one bad record refuses them all. */
  lemma {:induction false} RecordsParseSeparately(records: seq<seq<string>>)
    requires forall k :: 0 <= k < |records| ==> IsRecord(records[k])
    ensures var whole := ParseLines(EMPTY, Flatten(records));
      && (whole.Ok? <==> forall k :: 0 <= k < |records| ==> ParseLines(EMPTY, records[k]).Ok?)
      && (whole.Ok? ==>
            && whole.value.rest == EMPTY && |whole.value.events| == |records|
            && forall k :: 0 <= k < |records| ==> ParseLines(EMPTY, records[k]).value.events == [whole.value.events[k]])
    decreases |records|
  {
    hide ParseLines, IsRecord;
    if records == [] {
      NoLines();
    } else {
      var first, others := records[0], records[1..];
      ParseContinues(EMPTY, first, Flatten(others));
      RecordsParseSeparately(others);
      forall k | 0 <= k < |records|
        ensures k == 0 || records[k] == others[k - 1]
      {
      }
      if ParseLines(EMPTY, first).Ok? {
        RecordsLeaveNothing(EMPTY, first);
        assert forall k :: 0 <= k < |others| ==> others[k] == records[k + 1];
      }
    }
  }

  // ---- What the event of a record says ----

  /** The number on the last line of this field; it is this line that counts when a field is repeated. */
  function LastValue(lines: seq<string>, field: FieldName): Option<nat> {
    if lines == [] then None
    else
      var entry := EntryOf(lines[|lines| - 1]);
      if entry.Some? && entry.value.field == field then ParseNumber(entry.value.number)
      else LastValue(lines[..|lines| - 1], field)
  }

  function AsU64(value: Option<nat>): Option<U64> { if value.Some? then Some(ToU64(value.value)) else None }

  function AsU32(value: Option<nat>): Option<U32> { if value.Some? then NarrowWord(value.value) else None }

  function AsByte(value: Option<nat>): Option<Byte> { if value.Some? then NarrowByte(value.value) else None }

  predicate AsFlag(value: Option<nat>) { value.Some? && value.value != 0 }

  /** The fields of a record, each read off its last line. */
  function FieldsOf(lines: seq<string>): Fields {
    Fields(
      AsU64(LastValue(lines, OrderField)), AsU32(LastValue(lines, InstructionField)),
      AsU64(LastValue(lines, PcBeforeField)), AsU64(LastValue(lines, PcAfterField)),
      AsByte(LastValue(lines, RdAddressField)), AsU64(LastValue(lines, RdValueField)),
      AsU64(LastValue(lines, MemoryAddressField)), AsU32(LastValue(lines, MemoryReadMaskField)),
      AsU32(LastValue(lines, MemoryWriteMaskField)), AsU64(LastValue(lines, MemoryReadDataField)),
      AsU64(LastValue(lines, MemoryWriteDataField)),
      AsFlag(LastValue(lines, TrapField)), AsFlag(LastValue(lines, HaltField)))
  }

  lemma LastOfOneMore(lines: seq<string>, line: string)
    ensures forall field :: LastValue(lines + [line], field) ==
              if EntryOf(line).Some? && EntryOf(line).value.field == field then ParseNumber(EntryOf(line).value.number)
              else LastValue(lines, field)
  {
    hide EntryOf, ParseNumber;
    assert (lines + [line])[..|lines|] == lines;
  }

  predicate OfMemory(field: FieldName) {
    || field == MemoryAddressField || field == MemoryReadMaskField || field == MemoryWriteMaskField
    || field == MemoryReadDataField || field == MemoryWriteDataField
  }

  lemma OneMoreMemoryEntry(lines: seq<string>, line: string)
    requires AfterLine(FieldsOf(lines), line).Ok? && EntryOf(line).Some? && OfMemory(EntryOf(line).value.field)
    ensures AfterLine(FieldsOf(lines), line).value == FieldsOf(lines + [line])
  {
    hide EntryOf, ParseNumber, ToU64, NarrowWord, NarrowByte, LastValue;
    LastOfOneMore(lines, line);
    match EntryOf(line).value.field {
      case MemoryWriteMaskField =>
      case MemoryReadMaskField =>
      case MemoryWriteDataField =>
      case MemoryReadDataField =>
      case MemoryAddressField =>
      case _ =>
    }
  }

  lemma OneMoreEntry(lines: seq<string>, line: string)
    requires AfterLine(FieldsOf(lines), line).Ok? && EntryOf(line).Some? && !OfMemory(EntryOf(line).value.field)
    ensures AfterLine(FieldsOf(lines), line).value == FieldsOf(lines + [line])
  {
    hide EntryOf, ParseNumber, ToU64, NarrowWord, NarrowByte, LastValue;
    LastOfOneMore(lines, line);
    match EntryOf(line).value.field {
      case HaltField =>
      case TrapField =>
      case RdAddressField =>
      case RdValueField =>
      case InstructionField =>
      case PcAfterField =>
      case PcBeforeField =>
      case OrderField =>
      case OtherField =>
      case _ =>
    }
  }

  /** Each line updates exactly the field it names. */
  lemma OneMoreLine(lines: seq<string>, line: string)
    requires AfterLine(FieldsOf(lines), line).Ok?
    ensures AfterLine(FieldsOf(lines), line).value == FieldsOf(lines + [line])
  {
    hide EntryOf, LastValue, OfMemory;
    if EntryOf(line).Some? && OfMemory(EntryOf(line).value.field) {
      OneMoreMemoryEntry(lines, line);
    } else if EntryOf(line).Some? {
      OneMoreEntry(lines, line);
    } else {
      LastOfOneMore(lines, line);
    }
  }

  lemma {:induction false} FieldsOfRecord(read: seq<string>, lines: seq<string>)
    requires IsRecord(lines) && ParseLines(FieldsOf(read), lines).Ok?
    ensures EventOf(FieldsOf(read + lines)).Ok?
    ensures ParseLines(FieldsOf(read), lines).value.events == [EventOf(FieldsOf(read + lines)).value]
    decreases |lines|
  {
    hide AfterLine, IsOrderLine, EventOf, FieldsOf;
    OneMoreLine(read, lines[0]);
    var more := read + [lines[0]];
    if |lines| > 1 {
      assert more + lines[1..] == read + lines;
      FieldsOfRecord(more, lines[1..]);
    } else {
      assert lines[1..] == [] && more == read + lines;
    }
  }

  function WritesOf(index: Option<Byte>, value: Option<U64>): seq<RegisterWrite> {
    if index == None || index == Some(0) || value == None then [] else [RegisterWrite(index.value, value.value)]
  }

  lemma NothingRead()
    ensures FieldsOf([]) == EMPTY
  {
  }

  lemma NoAccessIsKept()
    ensures RetainAccesses([]) == []
  {
  }

  /** A record is read as the event its last lines describe, field by field. */
  lemma RecordsMeanTheirLastLines(lines: seq<string>, event: CommitEvent)
    requires IsRecord(lines) && ParseLines(EMPTY, lines) == Ok(Parsed([event], EMPTY))
    ensures
      && Some(event.order) == AsU64(LastValue(lines, OrderField))
      && Some(event.instruction) == AsU32(LastValue(lines, InstructionField))
      && Some(event.pcBefore) == AsU64(LastValue(lines, PcBeforeField))
      && Some(event.pcAfter) == AsU64(LastValue(lines, PcAfterField))
      && (event.trap <==> AsFlag(LastValue(lines, TrapField)))
      && (event.halt <==> AsFlag(LastValue(lines, HaltField)))
      && event.registerWrites == WritesOf(AsByte(LastValue(lines, RdAddressField)),
           AsU64(LastValue(lines, RdValueField)))
      && (event.memory != [] <==>
            GetOr(AsU32(LastValue(lines, MemoryReadMaskField)), U32(0)) != U32(0)
            || GetOr(AsU32(LastValue(lines, MemoryWriteMaskField)), U32(0)) != U32(0))
      && (event.memory != [] ==>
            && |event.memory| == 1 && Some(event.memory[0].address) == AsU64(LastValue(lines, MemoryAddressField))
            && event.memory[0].readMask == GetOr(AsU32(LastValue(lines, MemoryReadMaskField)), U32(0))
            && event.memory[0].writeMask == GetOr(AsU32(LastValue(lines, MemoryWriteMaskField)), U32(0))
            && event.memory[0].readData == GetOr(AsU64(LastValue(lines, MemoryReadDataField)), U64(0))
            && event.memory[0].writeData == GetOr(AsU64(LastValue(lines, MemoryWriteDataField)), U64(0)))
  {
    hide LastValue, ParseLines, ToU64, NarrowWord, NarrowByte, RetainAccesses, RetainWrites;
    NothingRead();
    assert [] + lines == lines;
    FieldsOfRecord([], lines);
    var fields := FieldsOf(lines);
    if Accesses(fields).value != [] {
      OneAccessRetained(Accesses(fields).value[0]);
    } else {
      NoAccessIsKept();
    }
  }

  // ---- Which records are read ----

  /** The numbers a field takes. */
  predicate Fits(field: FieldName, value: nat) {
    match field
    case RdAddressField => value < 256
    case InstructionField | MemoryReadMaskField | MemoryWriteMaskField => value < TWO_TO_THE_32
    case _ => true
  }

  /** A line that is skipped, or names a field with a number the field takes. */
  predicate Readable(line: string) {
    match EntryOf(line)
    case None => true
    case Some(Entry(field, number)) => ParseNumber(number).Some? && Fits(field, ParseNumber(number).value)
  }

  lemma ReadableLines(fields: Fields, line: string)
    ensures AfterLine(fields, line).Ok? <==> Readable(line)
  {
    hide EntryOf, ParseNumber, ToU64;
  }

  /** A record is read exactly when each of its lines is readable and its last lines give every required field. */
  lemma {:induction false} RecordsReadExactly(read: seq<string>, lines: seq<string>)
    requires IsRecord(lines)
    ensures ParseLines(FieldsOf(read), lines).Ok? <==>
            (forall k :: 0 <= k < |lines| ==> Readable(lines[k])) && EventOf(FieldsOf(read + lines)).Ok?
    ensures ParseLines(FieldsOf(read), lines).Ok? ==>
              ParseLines(FieldsOf(read), lines) == Ok(Parsed([EventOf(FieldsOf(read + lines)).value], EMPTY))
    decreases |lines|
  {
    hide AfterLine, IsOrderLine, EventOf, FieldsOf, Readable;
    ReadableLines(FieldsOf(read), lines[0]);
    if Readable(lines[0]) {
      OneMoreLine(read, lines[0]);
      var more := read + [lines[0]];
      if |lines| > 1 {
        assert more + lines[1..] == read + lines;
        RecordsReadExactly(more, lines[1..]);
        assert forall k :: 0 < k < |lines| ==> lines[k] == lines[1..][k - 1];
      } else {
        assert lines[1..] == [] && more == read + lines;
        assert forall event: CommitEvent :: [event] + [] == [event];
      }
    }
  }

  // ---- Written lines ----

  function Line(name: string, number: string): string { name + ":" + number }

  predicate PlainText(text: string) {
    text != [] && forall c :: c in text ==> !IsSpace(c) && c != ':'
  }

  /** A line written as a name, a colon and a number is read as that field and that number. */
  lemma WrittenLinesAreRead(name: string, number: string)
    requires PlainText(name) && PlainText(number) && PREFIX <= name
    ensures EntryOf(Line(name, number)) == Some(Entry(FieldNamed(name), number))
  {
    hide FieldNamed;
    var line := Line(name, number);
    assert line[0] == name[0] && name[0] in name;
    assert line[|line| - 1] == number[|number| - 1] && number[|number| - 1] in number;
    TrimKeepsUnspaced(line);
    assert forall i :: 0 <= i < |name| ==> line[i] == name[i] && name[i] in name;
    FindIsUnique(line, ':', 0, |name|);
    assert line[..|name|] == name && line[|name| + 1..] == number;
    assert name[|name| - 1] in name;
    TrimKeepsUnspaced(name);
  }

  /** The line that counts for a field, when no later line names it. */
  lemma {:induction false} LastLineCounts(lines: seq<string>, k: nat)
    requires k < |lines| && EntryOf(lines[k]).Some?
    requires forall j :: k < j < |lines| ==> EntryOf(lines[j]).Some? ==>
        EntryOf(lines[j]).value.field != EntryOf(lines[k]).value.field
    ensures LastValue(lines, EntryOf(lines[k]).value.field) == ParseNumber(EntryOf(lines[k]).value.number)
    decreases |lines|
  {
    hide EntryOf, ParseNumber;
    if k < |lines| - 1 {
      LastLineCounts(lines[..|lines| - 1], k);
    }
  }

  lemma {:induction false} UnnamedFieldsHaveNoValue(lines: seq<string>, field: FieldName)
    requires forall j :: 0 <= j < |lines| ==> EntryOf(lines[j]).Some? ==> EntryOf(lines[j]).value.field != field
    ensures LastValue(lines, field) == None
    decreases |lines|
  {
    hide EntryOf, ParseNumber;
    if lines != [] {
      UnnamedFieldsHaveNoValue(lines[..|lines| - 1], field);
    }
  }
}
