/**
 * The Java primitive semantics the core relies on: 32-bit `int` values, the
 * octets of a Netty `ByteBuf`, and the two conversions between them
 * (`writeByte` keeps the low 8 bits, `readByte` sign-extends).
 */
module JavaTypes {

  /** A Java `int`: a 32-bit two's complement integer. */
  newtype Int32 = x: int | -0x8000_0000 <= x < 0x8000_0000

  /** One octet of a byte buffer, as an unsigned value. */
  newtype Byte = b: int | 0 <= b < 0x100

  /** The values of a Java `byte`. */
  predicate InSignedByteRange(x: int) {
    -0x80 <= x < 0x80
  }

  /** The octet `ByteBuf.writeByte(v)` stores: the low 8 bits of `v`. */
  function LowByte(v: int): (b: Byte)
    ensures (v - b as int) % 0x100 == 0
  {
    // Dafny's `%` is Euclidean, so this is the two's complement low octet
    // for negative `v` too.
    (v % 0x100) as Byte
  }

  /** The `int` that `ByteBuf.readByte()` yields for octet `b`: a signed byte widened. */
  function SignExtend(b: Byte): (v: int)
    ensures InSignedByteRange(v)
    ensures LowByte(v) == b
  {
    if b < 0x80 then b as int else b as int - 0x100
  }

  /** Writing a value of the signed-byte range and reading it back is the identity. */
  lemma SignExtendLowByte(v: int)
    requires InSignedByteRange(v)
    ensures SignExtend(LowByte(v)) == v
  {
  }

  /** Two values are written as the same octet exactly when they agree modulo 256. */
  lemma LowByteEqual(v: int, w: int)
    ensures LowByte(v) == LowByte(w) <==> (v - w) % 0x100 == 0
  {
  }
}
