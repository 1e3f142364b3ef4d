/** `java.util.UUID` as its two 64-bit halves, and the 16 bytes that
    `BackupConfiguration.save` packs it into. */
module Uuids {
  import opened Bytes

  /** The bit pattern of a Java `long`, read as an unsigned number; two longs
      are equal exactly when their patterns are. */
  type Word = w: nat | w < 0x1_0000_0000_0000_0000

  datatype Uuid = Uuid(mostSignificant: Word, leastSignificant: Word)

  lemma WordFitsEightBytes(w: Word)
    ensures w < Pow256(8)
  {
    assert Pow256(2) == 0x1_0000;
    assert Pow256(4) == 0x1_0000_0000;
    assert Pow256(6) == 0x1_0000_0000_0000;
    assert Pow256(8) == 0x1_0000_0000_0000_0000;
  }

  /** `LongBuffer.put` of the two halves over a 16-byte big-endian buffer. */
  function ToBytes(id: Uuid): (bs: seq<Byte>)
    ensures |bs| == 16
  {
    BigEndian(id.mostSignificant, 8) + BigEndian(id.leastSignificant, 8)
  }

  datatype ReadResult = Read(id: Uuid) | BufferUnderflow

  /** Two `LongBuffer.get` calls over the bytes: fewer than 16 bytes underflow,
      bytes after the first 16 are ignored. */
  function FromBytes(bs: seq<Byte>): (r: ReadResult)
    ensures r.BufferUnderflow? <==> |bs| < 16
  {
    if |bs| < 16 then BufferUnderflow
    else
      ValueOfBound(bs[..8]);
      ValueOfBound(bs[8..16]);
      WordFitsEightBytes(0);
      Read(Uuid(ValueOf(bs[..8]), ValueOf(bs[8..16])))
  }

  /** The identifier survives being packed into bytes and read back. */
  lemma FromToBytes(id: Uuid)
    ensures FromBytes(ToBytes(id)) == Read(id)
  {
    var bs := ToBytes(id);
    WordFitsEightBytes(id.mostSignificant);
    WordFitsEightBytes(id.leastSignificant);
    assert bs[..8] == BigEndian(id.mostSignificant, 8);
    assert bs[8..16] == BigEndian(id.leastSignificant, 8);
    ValueOfBigEndian(id.mostSignificant, 8);
    ValueOfBigEndian(id.leastSignificant, 8);
  }

  /** Different identifiers are packed into different bytes. */
  lemma ToBytesInjective(a: Uuid, b: Uuid)
    requires ToBytes(a) == ToBytes(b)
    ensures a == b
  {
    FromToBytes(a);
    FromToBytes(b);
  }
}
