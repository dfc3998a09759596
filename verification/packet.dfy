/** The v1 RVFI-DII wire format: 88 bytes, least significant byte first, fields at fixed offsets. */
module Packet {
  import opened Words
  import opened Isa
  import opened Event

  const PACKET_BYTES := 88

  type PacketBytes = bytes: seq<U8> | |bytes| == PACKET_BYTES witness seq(PACKET_BYTES, _ => U8(0))

  datatype V1Packet = V1Packet(
    order: U64, pcRdata: U64, pcWdata: U64, insn: U64, rdWdata: U64,
    memAddr: U64, memRdata: U64, memWdata: U64, memRmask: U8, memWmask: U8,
    rdAddr: U8, trap: bool, halt: bool, intr: bool)

  /** The bytes of a packet that `Parse` does not look at. */
  datatype Ignored = Ignored(rs1Rdata: U64, rs2Rdata: U64, rs1Addr: U8, rs2Addr: U8)

  // ---- Little-endian words ----

  function ByteBits64(word: bv64, shift: bv6): bv8 { ((word >> shift) & 0xff) as bv8 }

  function Join64Bits(b0: bv8, b1: bv8, b2: bv8, b3: bv8, b4: bv8, b5: bv8, b6: bv8, b7: bv8): bv64 {
    (b0 as bv64) | ((b1 as bv64) << 8) | ((b2 as bv64) << 16) | ((b3 as bv64) << 24)
    | ((b4 as bv64) << 32) | ((b5 as bv64) << 40) | ((b6 as bv64) << 48) | ((b7 as bv64) << 56)
  }

  lemma EightBytesJoin(word: bv64)
    ensures Join64Bits((word & 0xff) as bv8, ((word >> 8) & 0xff) as bv8, ((word >> 16) & 0xff) as bv8,
                       ((word >> 24) & 0xff) as bv8, ((word >> 32) & 0xff) as bv8, ((word >> 40) & 0xff) as bv8,
                       ((word >> 48) & 0xff) as bv8, ((word >> 56) & 0xff) as bv8) == word
  {
  }

  lemma JoinUndoesSplit64(word: bv64)
    ensures Join64Bits(ByteBits64(word, 0), ByteBits64(word, 8), ByteBits64(word, 16), ByteBits64(word, 24),
                       ByteBits64(word, 32), ByteBits64(word, 40), ByteBits64(word, 48), ByteBits64(word, 56)) == word
  {
    EightBytesJoin(word);
  }

  /** `to_le_bytes` */
  function ToLeBytes(word: U64): (bytes: seq<U8>)
    ensures |bytes| == 8
  {
    var w := word.bits;
    [U8(ByteBits64(w, 0)), U8(ByteBits64(w, 8)), U8(ByteBits64(w, 16)), U8(ByteBits64(w, 24)),
     U8(ByteBits64(w, 32)), U8(ByteBits64(w, 40)), U8(ByteBits64(w, 48)), U8(ByteBits64(w, 56))]
  }

  /** `from_le_bytes` */
  function FromLeBytes(bytes: seq<U8>): U64
    requires |bytes| == 8
  {
    U64(Join64Bits(bytes[0].bits, bytes[1].bits, bytes[2].bits, bytes[3].bits,
                   bytes[4].bits, bytes[5].bits, bytes[6].bits, bytes[7].bits))
  }

  lemma LeBytesRoundTrip(word: U64)
    ensures FromLeBytes(ToLeBytes(word)) == word
  {
    hide ByteBits64, Join64Bits;
    JoinUndoesSplit64(word.bits);
  }

  // ---- Packets ----

  function WordAt(bytes: PacketBytes, offset: nat): U64
    requires offset + 8 <= PACKET_BYTES
  {
    FromLeBytes(bytes[offset..offset + 8])
  }

  function Parse(bytes: PacketBytes): V1Packet {
    V1Packet(WordAt(bytes, 0), WordAt(bytes, 8), WordAt(bytes, 16), WordAt(bytes, 24), WordAt(bytes, 48),
             WordAt(bytes, 56), WordAt(bytes, 64), WordAt(bytes, 72), bytes[80], bytes[81],
             bytes[84], bytes[85] != U8(0), bytes[86] != U8(0), bytes[87] != U8(0))
  }

  function Flag(raised: bool): U8 { if raised then U8(1) else U8(0) }

  /** The 64-bit fields of a packet, in order. */
  function WideFields(packet: V1Packet, ignored: Ignored): (fields: seq<U64>)
    ensures |fields| == 10
  {
    [packet.order, packet.pcRdata, packet.pcWdata, packet.insn, ignored.rs1Rdata, ignored.rs2Rdata, packet.rdWdata,
     packet.memAddr, packet.memRdata, packet.memWdata]
  }

  function ByteFields(packet: V1Packet, ignored: Ignored): (fields: seq<U8>)
    ensures |fields| == 8
  {
    [packet.memRmask, packet.memWmask, ignored.rs1Addr, ignored.rs2Addr, packet.rdAddr,
     Flag(packet.trap), Flag(packet.halt), Flag(packet.intr)]
  }

  /** The eight-byte groups of a packet, in order; the last group holds the one-byte fields. */
  function Groups(packet: V1Packet, ignored: Ignored): (groups: seq<seq<U8>>)
    ensures |groups| == 11 && forall k :: 0 <= k < 11 ==> |groups[k]| == 8
  {
    hide ToLeBytes, WideFields, ByteFields;
    seq(10, k requires 0 <= k < 10 => ToLeBytes(WideFields(packet, ignored)[k])) + [ByteFields(packet, ignored)]
  }

  function Concatenate(groups: seq<seq<U8>>): (bytes: seq<U8>)
    requires forall k :: 0 <= k < |groups| ==> |groups[k]| == 8
    ensures |bytes| == 8 * |groups|
  {
    if groups == [] then [] else groups[0] + Concatenate(groups[1..])
  }

  function Serialize(packet: V1Packet, ignored: Ignored): PacketBytes {
    Concatenate(Groups(packet, ignored))
  }

  lemma {:induction false} GroupIsASlice(groups: seq<seq<U8>>, k: nat)
    requires forall i :: 0 <= i < |groups| ==> |groups[i]| == 8
    requires k < |groups|
    ensures Concatenate(groups)[8 * k..8 * k + 8] == groups[k]
  {
    var bytes, rest := Concatenate(groups), Concatenate(groups[1..]);
    if k == 0 {
      assert bytes[0..8] == groups[0];
    } else {
      GroupIsASlice(groups[1..], k - 1);
      assert bytes[8 * k..8 * k + 8] == rest[8 * (k - 1)..8 * (k - 1) + 8];
    }
  }

  lemma GroupByte(groups: seq<seq<U8>>, k: nat, i: nat)
    requires forall j :: 0 <= j < |groups| ==> |groups[j]| == 8
    requires k < |groups| && i < 8
    ensures Concatenate(groups)[8 * k + i] == groups[k][i]
  {
    GroupIsASlice(groups, k);
    assert Concatenate(groups)[8 * k..8 * k + 8][i] == groups[k][i];
  }

  lemma WordOfGroup(packet: V1Packet, ignored: Ignored, k: nat, word: U64)
    requires k < 10 && Groups(packet, ignored)[k] == ToLeBytes(word)
    ensures WordAt(Serialize(packet, ignored), 8 * k) == word
  {
    hide ToLeBytes, FromLeBytes, Groups;
    GroupIsASlice(Groups(packet, ignored), k);
    LeBytesRoundTrip(word);
  }

  /** Serializing any packet, with anything in the ignored bytes, and parsing it back is the identity. */
  lemma ParseUndoesSerialize(packet: V1Packet, ignored: Ignored)
    ensures Parse(Serialize(packet, ignored)) == packet
  {
    hide WordAt, ToLeBytes, Concatenate;
    WordOfGroup(packet, ignored, 0, packet.order);
    WordOfGroup(packet, ignored, 1, packet.pcRdata);
    WordOfGroup(packet, ignored, 2, packet.pcWdata);
    WordOfGroup(packet, ignored, 3, packet.insn);
    WordOfGroup(packet, ignored, 6, packet.rdWdata);
    WordOfGroup(packet, ignored, 7, packet.memAddr);
    WordOfGroup(packet, ignored, 8, packet.memRdata);
    WordOfGroup(packet, ignored, 9, packet.memWdata);
    var groups := Groups(packet, ignored);
    GroupByte(groups, 10, 0);
    GroupByte(groups, 10, 1);
    GroupByte(groups, 10, 4);
    GroupByte(groups, 10, 5);
    GroupByte(groups, 10, 6);
    GroupByte(groups, 10, 7);
  }

  // ---- From packets to events ----

  function TruncateTo32(word: U64): U32 { U32((word.bits & 0xffff_ffff) as bv32) }

  function ZeroExtend32(word: U32): U64 { U64(word.bits as bv64) }

  function ZeroExtend8(byte: U8): U32 { U32(byte.bits as bv32) }

  function Number(byte: U8): Byte { byte.bits as nat }

  function RegisterByte(index: Reg): (byte: U8)
    ensures Number(byte) == index
  {
    U8(index as bv8)
  }

  lemma TruncationUndoesExtension(word: U32)
    ensures TruncateTo32(ZeroExtend32(word)) == word
  {
  }

  /** The event a packet stands for, given the shadow file before it. */
  function EventOfPacket(packet: V1Packet, shadow: Regs): CommitEvent {
    CommitEvent(
      packet.order, NormalizeInstructionWidth(TruncateTo32(packet.insn)), packet.pcRdata, packet.pcWdata,
      OptionToSeq(Observed(shadow, Number(packet.rdAddr), packet.rdWdata)),
      if packet.memRmask == U8(0) && packet.memWmask == U8(0) then []
      else [MemoryAccess(packet.memAddr, ZeroExtend8(packet.memRmask), ZeroExtend8(packet.memWmask),
                         packet.memRdata, packet.memWdata)],
      packet.trap, packet.halt).Normalize()
  }

  method IntoEvent(packet: V1Packet, shadow: RegisterShadow) returns (event: CommitEvent)
    requires shadow.Valid()
    modifies shadow.registers
    ensures shadow.Valid()
    ensures event == EventOfPacket(packet, old(shadow.Contents()))
    ensures shadow.Contents() == ShadowAfter(old(shadow.Contents()), Number(packet.rdAddr), packet.rdWdata)
  {
    hide Number, ZeroExtend8;
    ghost var before := shadow.Contents();
    var write := shadow.Observe(Number(packet.rdAddr), packet.rdWdata);
    var memory := [];
    if packet.memRmask != U8(0) || packet.memWmask != U8(0) {
      memory := [MemoryAccess(packet.memAddr, ZeroExtend8(packet.memRmask), ZeroExtend8(packet.memWmask),
                              packet.memRdata, packet.memWdata)];
    }
    event := CommitEvent(
      packet.order, NormalizeInstructionWidth(TruncateTo32(packet.insn)), packet.pcRdata, packet.pcWdata,
      OptionToSeq(write), memory, packet.trap, packet.halt).Normalize();
  }
}
