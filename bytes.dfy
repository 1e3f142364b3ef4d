/** Bytes, hexadecimal text (`DatatypeConverter.printHexBinary` and
    `parseHexBinary`) and big-endian words (`ByteBuffer`/`LongBuffer` in their
    default byte order). */
module Bytes {

  type Byte = b: int | 0 <= b < 256

  const HexDigits: string := "0123456789ABCDEF"

  /** `printHexBinary`: two upper-case digits per byte, high nibble first. */
  function PrintHexBinary(bs: seq<Byte>): (s: string)
    ensures |s| == 2 * |bs|
  {
    if bs == [] then "" else PrintByte(bs[0]) + PrintHexBinary(bs[1..])
  }

  function PrintByte(b: Byte): (s: string)
    ensures |s| == 2
  {
    [HexDigits[b / 16], HexDigits[b % 16]]
  }

  /** The value of a hexadecimal digit of either case, or -1 (`hexToBin`). */
  function HexValue(c: char): (v: int)
    ensures -1 <= v < 16
  {
    if '0' <= c <= '9' then c as int - '0' as int
    else if 'A' <= c <= 'F' then c as int - 'A' as int + 10
    else if 'a' <= c <= 'f' then c as int - 'a' as int + 10
    else -1
  }

  datatype HexResult = Decoded(bytes: seq<Byte>) | OddLength | IllegalCharacter

  /** `parseHexBinary`: text of odd length and text with a character that is not
      a hexadecimal digit are refused (IllegalArgumentException). */
  function ParseHexBinary(s: string): (r: HexResult)
    ensures r.OddLength? <==> |s| % 2 != 0
    ensures r.Decoded? ==> 2 * |r.bytes| == |s|
  {
    if |s| % 2 != 0 then OddLength else ParsePairs(s)
  }

  function ParsePairs(s: string): (r: HexResult)
    requires |s| % 2 == 0
    ensures !r.OddLength?
    ensures r.Decoded? ==> 2 * |r.bytes| == |s|
  {
    if s == [] then Decoded([])
    else
      var h, l := HexValue(s[0]), HexValue(s[1]);
      if h < 0 || l < 0 then IllegalCharacter
      else
        var t := ParsePairs(s[2..]);
        if t.Decoded? then Decoded([h * 16 + l] + t.bytes) else t
  }

  /** Text of even length is refused exactly when one of its characters is not
      a hexadecimal digit. */
  lemma {:induction false} ParseHexBinaryAccepts(s: string)
    ensures ParseHexBinary(s).Decoded? <==> |s| % 2 == 0 && forall i :: 0 <= i < |s| ==> HexValue(s[i]) >= 0
  {
    if |s| % 2 == 0 {
      ParsePairsAccepts(s);
    }
  }

  lemma {:induction false} ParsePairsAccepts(s: string)
    requires |s| % 2 == 0
    ensures ParsePairs(s).Decoded? <==> forall i :: 0 <= i < |s| ==> HexValue(s[i]) >= 0
  {
    if s != [] {
      var t := s[2..];
      ParsePairsAccepts(t);
      assert forall i :: 2 <= i < |s| ==> s[i] == t[i - 2];
      if HexValue(s[0]) >= 0 && HexValue(s[1]) >= 0 {
        if !ParsePairs(s).Decoded? {
          var j :| 0 <= j < |t| && HexValue(t[j]) < 0;
          assert HexValue(s[j + 2]) < 0;
        }
      }
    }
  }

  lemma HexDigitValue(n: int)
    requires 0 <= n < 16
    ensures HexValue(HexDigits[n]) == n
  {
  }

  /** The two digits a byte is printed as read back as its two nibbles. */
  lemma PrintByteReads(b: Byte)
    ensures HexValue(PrintByte(b)[0]) >= 0 && HexValue(PrintByte(b)[1]) >= 0
    ensures HexValue(PrintByte(b)[0]) * 16 + HexValue(PrintByte(b)[1]) == b
  {
    HexDigitValue(b / 16);
    HexDigitValue(b % 16);
  }

  /** Reading back printed hexadecimal gives the bytes that were printed. */
  lemma ParsePrintHexBinary(bs: seq<Byte>)
    ensures ParseHexBinary(PrintHexBinary(bs)) == Decoded(bs)
  {
    ParsePairsPrint(bs);
    var s := PrintHexBinary(bs);
    assert |s| % 2 == 0 by {
      Even(|bs|);
    }
  }

  lemma Even(n: nat)
    ensures (2 * n) % 2 == 0
  {
  }

  lemma {:induction false} ParsePairsPrint(bs: seq<Byte>)
    ensures ParsePairs(PrintHexBinary(bs)) == Decoded(bs)
  {
    if bs != [] {
      var d, rest := PrintByte(bs[0]), PrintHexBinary(bs[1..]);
      var s := d + rest;
      assert PrintHexBinary(bs) == s;
      PrintByteReads(bs[0]);
      Even(|bs|);
      Even(|bs| - 1);
      ParsePairsPrint(bs[1..]);
      assert s[2..] == rest && s[0] == d[0] && s[1] == d[1];
      ParsePairsCons(s, bs[1..]);
      assert bs == [bs[0]] + bs[1..];
    }
  }

  /** Two digits followed by text that reads as `t`. */
  lemma ParsePairsCons(s: string, t: seq<Byte>)
    requires |s| >= 2 && |s| % 2 == 0 && HexValue(s[0]) >= 0 && HexValue(s[1]) >= 0
    requires ParsePairs(s[2..]) == Decoded(t)
    ensures ParsePairs(s) == Decoded([HexValue(s[0]) * 16 + HexValue(s[1])] + t)
  {
  }

  // ---------------------------------------------------------------------
  // Big-endian words.

  function Pow256(n: nat): (r: nat)
    ensures r > 0
  {
    if n == 0 then 1 else 256 * Pow256(n - 1)
  }

  /** The `n` bytes of `w`, most significant first. */
  function BigEndian(w: nat, n: nat): (bs: seq<Byte>)
    ensures |bs| == n
  {
    if n == 0 then [] else BigEndian(w / 256, n - 1) + [w % 256]
  }

  /** The number whose big-endian bytes are `bs`. */
  function ValueOf(bs: seq<Byte>): nat
  {
    if bs == [] then 0 else ValueOf(bs[..|bs| - 1]) * 256 + bs[|bs| - 1]
  }

  lemma {:induction false} ValueOfBound(bs: seq<Byte>)
    ensures ValueOf(bs) < Pow256(|bs|)
  {
    if bs != [] {
      ValueOfBound(bs[..|bs| - 1]);
    }
  }

  /** Writing a word in `n` bytes and reading them back gives the word, when
      it fits in `n` bytes. */
  lemma {:induction false} ValueOfBigEndian(w: nat, n: nat)
    requires w < Pow256(n)
    ensures ValueOf(BigEndian(w, n)) == w
  {
    if n > 0 {
      var q, b := w / 256, w % 256;
      var init := BigEndian(q, n - 1);
      assert BigEndian(w, n) == init + [b];
      QuotientBound(w, Pow256(n - 1));
      ValueOfBigEndian(q, n - 1);
      ValueOfSnoc(init, b);
      Recombine(w, q, b);
    }
  }

  lemma ValueOfSnoc(s: seq<Byte>, b: Byte)
    ensures ValueOf(s + [b]) == ValueOf(s) * 256 + b
  {
    assert (s + [b])[..|s|] == s;
  }

  lemma QuotientBound(w: nat, p: nat)
    requires w < 256 * p
    ensures w / 256 < p
  {
  }

  lemma Recombine(w: nat, q: nat, b: nat)
    requires q == w / 256 && b == w % 256
    ensures q * 256 + b == w
  {
  }

  /** Reading bytes as a number and writing the number back gives the bytes. */
  lemma {:induction false} BigEndianValueOf(bs: seq<Byte>)
    ensures BigEndian(ValueOf(bs), |bs|) == bs
  {
    if bs != [] {
      var n := |bs|;
      var v := ValueOf(bs[..n - 1]);
      assert ValueOf(bs) / 256 == v && ValueOf(bs) % 256 == bs[n - 1];
      BigEndianValueOf(bs[..n - 1]);
      assert bs == bs[..n - 1] + [bs[n - 1]];
    }
  }
}
