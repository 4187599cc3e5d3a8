/**
 The integer-valued headers of apps/rest-coap/coap-server.c: the block option and the
 subscription lifetime, written with write_variable_int and read back with read_int.
 */
module CoapHeaders {
  import opened Bytes
  import opened RestInts
  import opened CoapCodec
  import CoapPacket
  import BumpBuffer

  const LIFETIME: u16 := 10
  const BLOCK: u16 := 13
  const NUMBERS := 0x1000_0000

  datatype BlockInfo = NoBlock | Block(number: nat, more: nat, exponent: nat)

  /** The 32-bit word of coap_set_header_block; `exponent` is log_2(size / 16). */
  function BlockWord(number: nat, more: u8, exponent: nat): (r: nat)
    requires number < WORD32
    ensures r < WORD32
  {
    number % NUMBERS * 16 + more as int % 2 * 8 + exponent % 8
  }

  function BlockOf(word: nat): BlockInfo {
    Block(word / 16, word / 8 % 2, word % 8)
  }

  /** read_int takes the length as eight bits. */
  function ReadValue(value: bytes): nat {
    ReadInt(value, |value| % 256)
  }

  /** So a value of 257 to 260 bytes reads as its first 1 to 4, and any other above 4 as 0. */
  lemma LongValues(value: bytes)
    requires 5 <= |value| < 512
    ensures ReadValue(value) == if 257 <= |value| <= 260 then ReadInt(value, |value| - 256) else 0
  {
  }

  /** coap_get_header_block. */
  function GetBlock(opts: seq<Opt>): BlockInfo {
    match Get(opts, BLOCK)
    case Absent => NoBlock
    case Present(value) => BlockOf(ReadValue(value))
  }

  /** The word's bits: three of size, one of more, and the number above them, as far as 32 bits go. */
  lemma BlockLayout(number: nat, more: u8, exponent: nat)
    requires number < WORD32 && exponent < 8
    ensures var w := BlockWord(number, more, exponent);
            w % 8 == exponent && w / 8 % 2 == more as int % 2 && w / 16 == number % 0x1000_0000
  {
  }

  lemma BlockFields(number: nat, more: u8, exponent: nat)
    requires number < WORD32 && exponent < 8
    ensures BlockOf(BlockWord(number, more, exponent)) == Block(number % NUMBERS, more as int % 2, exponent)
  {
  }

  /** The exponent stands for the largest power of two not above the block size. */
  lemma ExponentMeaning(size: u8, e: nat)
    requires IsLog2(size / 16, e)
    ensures e <= 3
    ensures size >= 16 ==> 16 * Pow2(e) <= size as int < 32 * Pow2(e)
    ensures size < 16 ==> e == 0
    ensures size in {16, 32, 64, 128} ==> 16 * Pow2(e) == size
  {
    assert Pow2(1) == 2 && Pow2(2) == 4 && Pow2(3) == 8 && Pow2(4) == 16;
    if e > 3 && size >= 16 {
      Pow2Monotone(4, e);
      assert false;
    }
  }

  lemma VariableIntReadBack(data: nat)
    requires data < WORD32
    ensures ReadValue(WriteVariableInt(data)) == data && |WriteVariableInt(data)| <= 4
  {
    VariableIntRoundTrip(data);
  }

  // ------------------------------------------------------------------ through the codec

  lemma {:induction false} AppendedGet(calls: seq<Opt>, o: Opt)
    requires forall c :: c in calls ==> c.number != o.number
    ensures Get(calls + [o], o.number) == Present(o.value)
    decreases |calls|
  {
    if calls != [] {
      assert (calls + [o])[1..] == calls[1..] + [o];
      AppendedGet(calls[1..], o);
    }
  }

  /** A value set for a number not set before is what the receiver of the packet finds. */
  lemma HeaderOverTheWire(calls: seq<Opt>, o: Opt, kind: u2, code: u8, tid: u16, payload: bytes)
    requires |calls| < 15 && o.number <= 15 && |o.value| <= 270
    requires forall c :: c in calls ==> c.number <= 15 && |c.value| <= 270 && c.number != o.number
    ensures var m := Parse(Serialize(Packet(1, kind, code, tid, InsertAll([], calls + [o]), payload)));
            m.Message? && Get(m.packet.options, o.number) == Present(o.value)
  {
    BuiltPacketsRoundTrip(calls + [o], kind, code, tid, payload);
    GetReturnsEarliest(calls + [o], o.number);
    AppendedGet(calls, o);
  }

  /** A block option set by the sender is read by the receiver as its number modulo 2^28, its more
      flag and the exponent of its size, whatever other options were set. */
  lemma BlockOverTheWire(calls: seq<Opt>, number: nat, more: u8, size: u8, e: nat,
                         kind: u2, code: u8, tid: u16, payload: bytes)
    requires |calls| < 15 && number < WORD32 && IsLog2(size / 16, e)
    requires forall c :: c in calls ==> c.number <= 15 && |c.value| <= 270 && c.number != 13
    ensures var o := Opt(13, WriteVariableInt(BlockWord(number, more, e)));
            var m := Parse(Serialize(Packet(1, kind, code, tid, InsertAll([], calls + [o]), payload)));
            m.Message? && GetBlock(m.packet.options) == Block(number % NUMBERS, more as int % 2, e)
  {
    var word := BlockWord(number, more, e);
    ExponentMeaning(size, e);
    VariableIntReadBack(word);
    BlockFields(number, more, e);
    HeaderOverTheWire(calls, Opt(BLOCK, WriteVariableInt(word)), kind, code, tid, payload);
  }

  /** Every 32-bit subscription lifetime arrives. */
  lemma LifetimeOverTheWire(calls: seq<Opt>, lifetime: nat, kind: u2, code: u8, tid: u16, payload: bytes)
    requires |calls| < 15 && lifetime < WORD32
    requires forall c :: c in calls ==> c.number <= 15 && |c.value| <= 270 && c.number != 10
    ensures var o := Opt(10, WriteVariableInt(lifetime));
            var m := Parse(Serialize(Packet(1, kind, code, tid, InsertAll([], calls + [o]), payload)));
            && m.Message? && Get(m.packet.options, 10).Present?
            && ReadValue(Get(m.packet.options, 10).value) == lifetime
  {
    VariableIntReadBack(lifetime);
    HeaderOverTheWire(calls, Opt(10, WriteVariableInt(lifetime)), kind, code, tid, payload);
  }

  // ------------------------------------------------------------------ in place

  /** coap_set_header_block. */
  method SetHeaderBlock(packet: CoapPacket.CoapPacket, arena: BumpBuffer.Buffer, number: nat, more: u8, size: u8)
      returns (ok: bool, e: nat)
    requires packet.Built() && number < WORD32
    modifies packet`options, packet`optionCount, packet`spine, packet.spine`next, arena
    ensures packet.Built() && IsLog2(size / 16, e)
    ensures packet.Options()
         == if ok then Insert(old(packet.Options()), Opt(13, WriteVariableInt(BlockWord(number, more, e))))
            else old(packet.Options())
  {
    e := Log2(size / 16);
    var value := WriteVariableInt(BlockWord(number, more, e));
    VariableIntReadBack(BlockWord(number, more, e));
    var r := packet.SetOption(arena, BLOCK, value);
    ok := r.Done?;
  }

  /** coap_get_header_block. */
  method GetHeaderBlock(packet: CoapPacket.CoapPacket) returns (block: BlockInfo)
    requires packet.Linked() && packet.optionCount <= |packet.spine|
    ensures block == GetBlock(packet.Options()[..packet.optionCount])
  {
    var option := packet.GetOption(BLOCK);
    if option == null {
      return NoBlock;
    }
    var all := ReadValue(option.value);
    block := Block(all / 16, all / 8 % 2, all % 8);
  }

  /** coap_set_header_subscription_lifetime. */
  method SetHeaderLifetime(packet: CoapPacket.CoapPacket, arena: BumpBuffer.Buffer, lifetime: nat) returns (ok: bool)
    requires packet.Built() && lifetime < WORD32
    modifies packet`options, packet`optionCount, packet`spine, packet.spine`next, arena
    ensures packet.Built()
    ensures packet.Options()
         == if ok then Insert(old(packet.Options()), Opt(10, WriteVariableInt(lifetime)))
            else old(packet.Options())
  {
    VariableIntReadBack(lifetime);
    var r := packet.SetOption(arena, LIFETIME, WriteVariableInt(lifetime));
    ok := r.Done?;
  }
}
