/** The two `java.io`/`java.security` objects that `Directories.digest` works
    with: an input stream read in chunks into a caller's buffer, and a message
    digest that accumulates the bytes it is fed and hashes them on `digest`. */
module Streams {
  import opened Bytes

  /** The size of the buffer `digest(InputStream, MessageDigest)` reads into. */
  const BufferSize: nat := 1024

  /** An input stream over a fixed byte sequence. How many bytes one `read`
      delivers is up to the stream (a `SequenceInputStream` never reads past
      the end of its current part), so it is left open. */
  class InputStream {
    const data: seq<Byte>
    var pos: nat
    var closed: bool

    ghost predicate Valid()
      reads this
    {
      pos <= |data|
    }

    constructor (data: seq<Byte>)
      ensures Valid() && this.data == data && pos == 0 && !closed
    {
      this.data := data;
      pos := 0;
      closed := false;
    }

    /** `read(byte[])`: 0 for an empty buffer, -1 at the end of the stream,
        otherwise between 1 and `buf.Length` of the next bytes, stored at the
        start of `buf`. */
    method Read(buf: array<Byte>) returns (n: int)
      requires Valid() && !closed
      modifies this, buf
      ensures Valid() && !closed
      ensures buf.Length == 0 ==> n == 0
      ensures buf.Length > 0 && old(pos) == |data| <==> n == -1
      ensures buf.Length > 0 && old(pos) < |data| ==> 1 <= n <= buf.Length
      ensures n <= 0 ==> pos == old(pos) && buf[..] == old(buf[..])
      ensures n > 0 ==> pos == old(pos) + n && buf[..n] == data[old(pos)..pos] && buf[n..] == old(buf[n..])
    {
      if buf.Length == 0 {
        return 0;
      }
      if pos == |data| {
        return -1;
      }
      var available := |data| - pos;
      n :| 1 <= n <= buf.Length && n <= available;
      ghost var rest := buf[n..];
      var i := 0;
      while i < n
        modifies buf
        invariant 0 <= i <= n
        invariant buf[..i] == data[pos..pos + i]
        invariant buf[n..] == rest
      {
        buf[i] := data[pos + i];
        i := i + 1;
      }
      pos := pos + n;
    }

    method Close()
      modifies this
      ensures closed && pos == old(pos)
    {
      closed := true;
    }
  }

  /** A `MessageDigest` whose hash function is `algorithm` (MD5, SHA-1, ...;
      which one is not modelled): it hashes everything it was fed since it was
      created or last reset. */
  class MessageDigest {
    const algorithm: seq<Byte> -> seq<Byte>
    var fed: seq<Byte>

    constructor (algorithm: seq<Byte> -> seq<Byte>)
      ensures this.algorithm == algorithm && fed == []
    {
      this.algorithm := algorithm;
      fed := [];
    }

    method Update(bs: seq<Byte>)
      modifies this
      ensures fed == old(fed) + bs
    {
      fed := fed + bs;
    }

    /** `update(byte[], int, int)`. */
    method UpdateRange(buf: array<Byte>, offset: nat, length: nat)
      requires offset + length <= buf.Length
      modifies this
      ensures fed == old(fed) + buf[offset..offset + length]
    {
      fed := fed + buf[offset..offset + length];
    }

    /** `digest()`: the hash of the bytes fed, after which the digest is reset. */
    method Digest() returns (hash: seq<Byte>)
      modifies this
      ensures hash == algorithm(old(fed)) && fed == []
    {
      hash := algorithm(fed);
      fed := [];
    }
  }

  /** `Directories.digest(InputStream, MessageDigest)`: feeds the stream to the
      digest in chunks of at most `BufferSize` bytes until `read` reports the
      end, closes the stream and finishes the hash. What is hashed is what had
      been fed before followed by the rest of the stream, however the stream
      splits it into chunks. */
  method DigestStream(stream: InputStream, md: MessageDigest) returns (hash: seq<Byte>)
    requires stream.Valid() && !stream.closed
    modifies stream, md
    ensures stream.Valid() && stream.closed && stream.pos == |stream.data|
    ensures hash == md.algorithm(old(md.fed) + stream.data[old(stream.pos)..])
    ensures md.fed == []
  {
    var buf := new Byte[BufferSize];
    var read := stream.Read(buf);
    while read > 0
      invariant stream.Valid() && !stream.closed && old(stream.pos) <= stream.pos
      invariant read <= 0 ==> read == -1 && stream.pos == |stream.data|
      invariant read > 0 ==> read <= buf.Length && old(stream.pos) + read <= stream.pos
      invariant read > 0 ==> md.fed + buf[..read] == old(md.fed) + stream.data[old(stream.pos)..stream.pos]
      invariant read <= 0 ==> md.fed == old(md.fed) + stream.data[old(stream.pos)..stream.pos]
      decreases |stream.data| - stream.pos + (if read > 0 then 1 else 0)
    {
      md.UpdateRange(buf, 0, read);
      assert md.fed == old(md.fed) + stream.data[old(stream.pos)..stream.pos] by {
        assert buf[0..read] == buf[..read];
      }
      ghost var mid := stream.pos;
      read := stream.Read(buf);
      if read > 0 {
        assert stream.data[old(stream.pos)..stream.pos] == stream.data[old(stream.pos)..mid] + stream.data[mid..stream.pos];
      }
    }
    assert stream.data[old(stream.pos)..stream.pos] == stream.data[old(stream.pos)..];
    stream.Close();
    hash := md.Digest();
  }
}
