/**
 * The protocol codec for the window-enchant-item message: the client tells the
 * server which enchantment (of the enchanting table's offers) it picked in the
 * window of a given transaction. The payload is two bytes, the transaction id
 * then the enchantment id; the codec is bound to opcode 0x6C.
 */
module WindowEnchantItemCodec {
  import opened Wrappers
  import opened JavaTypes

  /** The message class a codec is registered for. */
  datatype MessageType = WindowEnchantItemMessageType

  /** What the codec's constructor hands to the framework: message class and opcode. */
  datatype Binding = Binding(messageType: MessageType, opcode: int)

  /** The decoded message; both fields are Java ints. */
  datatype WindowEnchantItemMessage = WindowEnchantItemMessage(transaction: Int32, enchantment: Int32)

  /** A decoded message together with the bytes left unread in the buffer. */
  datatype Decoded = Decoded(message: WindowEnchantItemMessage, rest: seq<Byte>)

  /** Reading past the end of the buffer (`IndexOutOfBoundsException` in Netty). */
  datatype DecodeError = Truncated

  /** Both fields fit a Java byte, the range within which the codec is lossless. */
  predicate InWireRange(m: WindowEnchantItemMessage) {
    InSignedByteRange(m.transaction as int) && InSignedByteRange(m.enchantment as int)
  }

  /** The codec's registration: the window-enchant-item message at opcode 0x6C. */
  function CodecBinding(): (b: Binding)
    ensures b.messageType == WindowEnchantItemMessageType
    ensures b.opcode == 0x6C
    ensures 0 <= b.opcode < 0x100
  {
    Binding(WindowEnchantItemMessageType, 0x6C)
  }

  /** `buffer.readByte()`: consumes one octet and yields it sign-extended, or fails on an empty buffer. */
  function ReadByte(buffer: seq<Byte>): (r: Result<(int, seq<Byte>), DecodeError>)
    ensures r.Success? <==> |buffer| >= 1
    ensures r.Success? ==> InSignedByteRange(r.value.0) && LowByte(r.value.0) == buffer[0]
    ensures r.Success? ==> r.value.1 == buffer[1..]
  {
    if |buffer| == 0 then Failure(Truncated) else Success((SignExtend(buffer[0]), buffer[1..]))
  }

  /** `buffer.writeByte(v)`: appends the low 8 bits of `v`. */
  function WriteByte(buffer: seq<Byte>, v: int): (r: seq<Byte>)
    ensures |r| == |buffer| + 1 && r[..|buffer|] == buffer
    ensures (r[|buffer|] as int - v) % 0x100 == 0
  {
    buffer + [LowByte(v)]
  }

  /**
   * `decode`: the transaction from the first octet, the enchantment from the
   * second, each sign-extended; any further octets are left unread.
   */
  function Decode(buffer: seq<Byte>): (r: Result<Decoded, DecodeError>)
    ensures r.Success? <==> |buffer| >= 2
    ensures r.Failure? ==> r.error == Truncated
    ensures r.Success? ==> InWireRange(r.value.message)
    ensures r.Success? ==> LowByte(r.value.message.transaction as int) == buffer[0]
    ensures r.Success? ==> LowByte(r.value.message.enchantment as int) == buffer[1]
    ensures r.Success? ==> r.value.rest == buffer[2..]
  {
    var (transaction, afterTransaction) :- ReadByte(buffer);
    var (enchantment, rest) :- ReadByte(afterTransaction);
    Success(Decoded(WindowEnchantItemMessage(transaction as Int32, enchantment as Int32), rest))
  }

  /** `encode`: two octets, the low 8 bits of the transaction then of the enchantment. */
  function Encode(m: WindowEnchantItemMessage): (bytes: seq<Byte>)
    ensures |bytes| == 2
    ensures (bytes[0] as int - m.transaction as int) % 0x100 == 0
    ensures (bytes[1] as int - m.enchantment as int) % 0x100 == 0
  {
    WriteByte(WriteByte([], m.transaction as int), m.enchantment as int)
  }

  /** Round trip: a message whose fields fit a byte decodes back from its encoding, whatever follows it. */
  lemma RoundTrip(m: WindowEnchantItemMessage, rest: seq<Byte>)
    requires InWireRange(m)
    ensures Decode(Encode(m) + rest) == Success(Decoded(m, rest))
  {
    var bytes := Encode(m) + rest;
    SignExtendLowByte(m.transaction as int);
    SignExtendLowByte(m.enchantment as int);
    assert bytes[0] == LowByte(m.transaction as int);
    assert bytes[1] == LowByte(m.enchantment as int);
    assert bytes[2..] == rest;
  }

  /** The round trip holds exactly for messages whose fields fit a byte; otherwise the decoded fields differ. */
  lemma RoundTripIff(m: WindowEnchantItemMessage)
    ensures Decode(Encode(m)).Success?
    ensures Decode(Encode(m)).value.message == m <==> InWireRange(m)
  {
    if InWireRange(m) {
      RoundTrip(m, []);
      assert Encode(m) + [] == Encode(m);
    }
  }

  /** A transaction of 200 is written as 0xC8 and read back as -56. */
  lemma OutOfRangeExample()
    ensures Encode(WindowEnchantItemMessage(200, 0)) == [0xC8, 0x00]
    ensures Decode([0xC8, 0x00]) == Success(Decoded(WindowEnchantItemMessage(-56, 0), []))
  {
  }

  /** The other round trip: re-encoding what was decoded gives back exactly the two octets consumed. */
  lemma DecodeThenEncode(buffer: seq<Byte>)
    requires |buffer| >= 2
    ensures Decode(buffer).Success?
    ensures Encode(Decode(buffer).value.message) == buffer[..2]
  {
    var m := Decode(buffer).value.message;
    var bytes := Encode(m);
    LowByteEqual(bytes[0] as int, m.transaction as int);
    LowByteEqual(bytes[1] as int, m.enchantment as int);
    assert bytes[0] == buffer[0];
    assert bytes[1] == buffer[1];
  }

  /** Every strict prefix of an encoding is truncated: no partially populated message is returned. */
  lemma PrefixTruncated(m: WindowEnchantItemMessage, k: nat)
    requires k < 2
    ensures Decode(Encode(m)[..k]) == Failure(Truncated)
  {
  }

  /** The encoding depends on nothing but the low octets of the two fields. */
  lemma EncodeEqualIff(m1: WindowEnchantItemMessage, m2: WindowEnchantItemMessage)
    ensures Encode(m1) == Encode(m2) <==>
      (m1.transaction as int - m2.transaction as int) % 0x100 == 0 &&
      (m1.enchantment as int - m2.enchantment as int) % 0x100 == 0
  {
    var e1, e2 := Encode(m1), Encode(m2);
    LowByteEqual(m1.transaction as int, m2.transaction as int);
    LowByteEqual(m1.enchantment as int, m2.enchantment as int);
    LowByteEqual(e1[0] as int, m1.transaction as int);
    LowByteEqual(e1[1] as int, m1.enchantment as int);
    LowByteEqual(e2[0] as int, m2.transaction as int);
    LowByteEqual(e2[1] as int, m2.enchantment as int);
    if e1[0] == e2[0] && e1[1] == e2[1] {
      assert e1 == e2;
    }
  }

  /** Transaction 5 with enchantment 2 is the payload [0x05, 0x02], and that payload decodes to it. */
  lemma ScenarioFiveTwo()
    ensures Encode(WindowEnchantItemMessage(5, 2)) == [0x05, 0x02]
    ensures Decode([0x05, 0x02]) == Success(Decoded(WindowEnchantItemMessage(5, 2), []))
    ensures Decode([0x05]) == Failure(Truncated)
  {
  }
}
