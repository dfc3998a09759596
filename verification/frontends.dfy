/** The two readers of Sail's reports, the binary packet and the textual record, seen side by side. */
module Frontends {
  import opened Words
  import opened Isa
  import opened Event
  import opened Packet
  import opened Numbers
  import opened RvfiText

  /** The record's last lines carry the values of the packet's fields. */
  ghost predicate Reports(lines: seq<string>, packet: V1Packet) {
    && AsU64(LastValue(lines, OrderField)) == Some(packet.order)
    && AsU32(LastValue(lines, InstructionField)) == Some(TruncateTo32(packet.insn))
    && AsU64(LastValue(lines, PcBeforeField)) == Some(packet.pcRdata)
    && AsU64(LastValue(lines, PcAfterField)) == Some(packet.pcWdata)
    && AsByte(LastValue(lines, RdAddressField)) == Some(Number(packet.rdAddr))
    && AsU64(LastValue(lines, RdValueField)) == Some(packet.rdWdata)
    && AsU64(LastValue(lines, MemoryAddressField)) == Some(packet.memAddr)
    && AsU32(LastValue(lines, MemoryReadMaskField)) == Some(ZeroExtend8(packet.memRmask))
    && AsU32(LastValue(lines, MemoryWriteMaskField)) == Some(ZeroExtend8(packet.memWmask))
    && AsU64(LastValue(lines, MemoryReadDataField)) == Some(packet.memRdata)
    && AsU64(LastValue(lines, MemoryWriteDataField)) == Some(packet.memWdata)
    && (AsFlag(LastValue(lines, TrapField)) <==> packet.trap)
    && (AsFlag(LastValue(lines, HaltField)) <==> packet.halt)
  }

  /** A reported write that the shadow file lets through as it is: none at all, or a change of x1..x31. */
  predicate SeenByBoth(shadow: Regs, index: Byte, value: U64) {
    index == 0 || (Architectural(index) && shadow[index] != value)
  }

  lemma MasksExtend(mask: U8)
    ensures ZeroExtend8(mask) == U32(0) <==> mask == U8(0)
  {
  }

  lemma NothingRetained()
    ensures RetainAccesses([]) == [] && RetainWrites([]) == []
  {
  }

  /** The packet's event in parts. */
  lemma PacketEvent(packet: V1Packet, shadow: Regs)
    ensures var event := EventOfPacket(packet, shadow); var index := Number(packet.rdAddr);
      && event.order == packet.order && event.pcBefore == packet.pcRdata && event.pcAfter == packet.pcWdata
      && event.instruction == NormalizeInstructionWidth(TruncateTo32(packet.insn))
      && event.trap == packet.trap && event.halt == packet.halt
      && event.registerWrites ==
           (if Architectural(index) && shadow[index] != packet.rdWdata then
              [RegisterWrite(index, packet.rdWdata)]
            else [])
      && event.memory ==
           if packet.memRmask == U8(0) && packet.memWmask == U8(0) then []
           else [MemoryAccess(packet.memAddr, ZeroExtend8(packet.memRmask), ZeroExtend8(packet.memWmask),
                              packet.memRdata, packet.memWdata)]
  {
    hide Number, ZeroExtend8, TruncateTo32, NormalizeInstructionWidth, RetainAccesses;
    MasksExtend(packet.memRmask);
    MasksExtend(packet.memWmask);
    OneAccessRetained(MemoryAccess(packet.memAddr, ZeroExtend8(packet.memRmask), ZeroExtend8(packet.memWmask),
                                   packet.memRdata, packet.memWdata));
    NothingRetained();
  }

  /** Given the same values, the textual parser and the packet client produce the same event exactly when the
      instruction keeps its bits under width normalization, which the text path does not apply, and the write is one
      the shadow file lets through. */
  lemma FrontendsAgreeExactly(lines: seq<string>, packet: V1Packet, shadow: Regs, event: CommitEvent)
    requires IsRecord(lines) && ParseLines(EMPTY, lines) == Ok(Parsed([event], EMPTY)) && Reports(lines, packet)
    ensures event == EventOfPacket(packet, shadow) <==>
            && KeepsItsBits(TruncateTo32(packet.insn))
            && SeenByBoth(shadow, Number(packet.rdAddr), packet.rdWdata)
  {
    hide LastValue, ParseLines, Number, ZeroExtend8;
    hide TruncateTo32, NormalizeInstructionWidth, KeepsItsBits, EventOfPacket;
    hide IsRecord, AsU64, AsU32, AsByte, AsFlag;
    RecordsMeanTheirLastLines(lines, event);
    PacketEvent(packet, shadow);
    NormalizationKeepsExactly(TruncateTo32(packet.insn));
    MasksExtend(packet.memRmask);
    MasksExtend(packet.memWmask);
  }

  // ---- A report that is read differently ----

  const NAMES: seq<string> := [
    "rvfi_insn", "rvfi_pc_rdata", "rvfi_pc_wdata", "rvfi_rd_addr", "rvfi_rd_wdata", "rvfi_mem_addr",
    "rvfi_mem_rmask", "rvfi_mem_wmask", "rvfi_mem_rdata", "rvfi_mem_wdata", "rvfi_order"]

  const FIELDS: seq<FieldName> := [
    InstructionField, PcBeforeField, PcAfterField, RdAddressField, RdValueField, MemoryAddressField,
    MemoryReadMaskField, MemoryWriteMaskField, MemoryReadDataField, MemoryWriteDataField, OrderField]

  function NumberAt(k: nat): string { if k == 3 then "1" else "0" }

  /** A record that reports a write of zero to x1, and zero everywhere else. */
  function RewriteRecord(): seq<string> {
    seq(11, k requires 0 <= k < 11 => Line(NAMES[k], NumberAt(k)))
  }

  const REWRITE_PACKET :=
    V1Packet(U64(0), U64(0), U64(0), U64(0), U64(0), U64(0), U64(0), U64(0), U8(0), U8(0), U8(1), false, false, false)

  lemma OneDigitDenotes(c: char)
    requires c == '0' || c == '1'
    ensures AllDigits([c], 10) && Denotes([c], 10) == if c == '0' then 0 else 1
  {
    assert [c][..0] == "";
  }

  lemma OneDigitIsRead(c: char)
    requires c == '0' || c == '1'
    ensures ParseNumber([c]) == Some(if c == '0' then 0 else 1)
  {
    hide ParseNumber, WithoutUnderscores, AllDigits, Denotes, Power;
    assert "" + [c] + "" == [c] && "" + [c] == [c];
    NoUnderscores([c]);
    OneDigitDenotes(c);
    assert Spaced("") && Unspaced([c]) && WellFormed("", [c], 10);
    NumbersParseToTheirValue("", [c], "", "", [c], 10);
  }

  lemma NumbersAreRead()
    ensures ParseNumber("0") == Some(0) && ParseNumber("1") == Some(1)
  {
    hide ParseNumber;
    OneDigitIsRead('0');
    OneDigitIsRead('1');
  }

  lemma NamesArePlain(k: nat)
    requires k < 11
    ensures PlainText(NAMES[k]) && PREFIX <= NAMES[k]
  {
  }

  lemma NamesAreFields(k: nat)
    requires k < 11
    ensures FieldNamed(NAMES[k]) == FIELDS[k]
  {
  }

  lemma RewriteLines(k: nat)
    requires k < 11
    ensures EntryOf(RewriteRecord()[k]) == Some(Entry(FIELDS[k], NumberAt(k)))
  {
    NamesArePlain(k);
    NamesAreFields(k);
    WrittenLinesAreRead(NAMES[k], NumberAt(k));
  }

  lemma RewriteLength()
    ensures |RewriteRecord()| == 11
  {
  }

  lemma FieldsDiffer()
    ensures forall j, k :: 0 <= j < k < 11 ==> FIELDS[j] != FIELDS[k]
    ensures forall k :: 0 <= k < 11 ==> FIELDS[k] != TrapField && FIELDS[k] != HaltField
  {
  }

  lemma RewriteValues(k: nat)
    requires k < 11
    ensures LastValue(RewriteRecord(), FIELDS[k]) == Some(if k == 3 then 1 else 0)
  {
    hide EntryOf, LastValue, ParseNumber, RewriteRecord;
    var lines := RewriteRecord();
    assert |lines| == 11 by { RewriteLength(); }
    forall j | 0 <= j < 11
      ensures EntryOf(lines[j]) == Some(Entry(FIELDS[j], NumberAt(j)))
    {
      RewriteLines(j);
    }
    FieldsDiffer();
    LastLineCounts(lines, k);
    NumbersAreRead();
  }

  lemma RewriteFlags()
    ensures LastValue(RewriteRecord(), TrapField) == None && LastValue(RewriteRecord(), HaltField) == None
  {
    hide EntryOf, LastValue, RewriteRecord;
    RewriteLength();
    forall j | 0 <= j < 11
      ensures EntryOf(RewriteRecord()[j]) == Some(Entry(FIELDS[j], NumberAt(j)))
    {
      RewriteLines(j);
    }
    FieldsDiffer();
    UnnamedFieldsHaveNoValue(RewriteRecord(), TrapField);
    UnnamedFieldsHaveNoValue(RewriteRecord(), HaltField);
  }

  lemma RewriteIsReported()
    ensures Reports(RewriteRecord(), REWRITE_PACKET)
  {
    hide EntryOf, LastValue, RewriteRecord;
    RewriteValues(0);
    RewriteValues(1);
    RewriteValues(2);
    RewriteValues(3);
    RewriteValues(4);
    RewriteValues(5);
    RewriteValues(6);
    RewriteValues(7);
    RewriteValues(8);
    RewriteValues(9);
    RewriteValues(10);
    RewriteFlags();
  }

  lemma RewriteIsARecord()
    ensures IsRecord(RewriteRecord()) && forall k :: 0 <= k < 11 ==> Readable(RewriteRecord()[k])
  {
    hide EntryOf, RewriteRecord, ParseNumber;
    RewriteLength();
    NumbersAreRead();
    FieldsDiffer();
    forall k | 0 <= k < 11
      ensures IsOrderLine(RewriteRecord()[k]) <==> k == 10
      ensures Readable(RewriteRecord()[k])
    {
      RewriteLines(k);
    }
  }

  lemma RewriteEvent()
    ensures var event := EventOf(FieldsOf(RewriteRecord()));
      event.Ok? && event.value.registerWrites == [RegisterWrite(1, U64(0))]
  {
    hide RewriteRecord, LastValue, RetainAccesses, RetainWrites;
    RewriteIsReported();
    OneWriteRetained(RegisterWrite(1, U64(0)));
  }

  lemma NothingReadYet()
    ensures FieldsOf([]) == EMPTY
  {
  }

  /** A rewrite of a held value, reported alike to both: the text reader makes an event with a write, the packet client
      one without. */
  lemma RewritesAreReadDifferently()
    ensures var lines := RewriteRecord();
      exists event ::
        && IsRecord(lines) && ParseLines(EMPTY, lines) == Ok(Parsed([event], EMPTY)) && Reports(lines, REWRITE_PACKET)
        && event.registerWrites == [RegisterWrite(1, U64(0))]
        && EventOfPacket(REWRITE_PACKET, Zeroed()).registerWrites == []
  {
    hide RewriteRecord, Reports, LastValue, ParseLines, IsRecord, EventOfPacket;
    var lines := RewriteRecord();
    RewriteIsARecord();
    RewriteIsReported();
    RewriteLength();
    RewriteEvent();
    NothingReadYet();
    assert [] + lines == lines;
    RecordsReadExactly([], lines);
    var event := EventOf(FieldsOf(lines)).value;
    PacketEvent(REWRITE_PACKET, Zeroed());
    assert ParseLines(EMPTY, lines) == Ok(Parsed([event], EMPTY));
  }
}
