/**
 * Rendering of a digest as the source prints it: `printf("%02X", b)` for
 * every byte in turn, i.e. two upper-case hexadecimal characters per byte
 * (a negative Java byte is printed as its unsigned value).
 */
module HexFormat {
  import opened Wrappers
  import opened Bytes

  /** The upper-case hexadecimal character for `n`. */
  function HexDigit(n: nat): (c: char)
    requires n < 16
  {
    if n < 10 then ('0' as int + n) as char else ('A' as int + n - 10) as char
  }

  predicate IsHexDigit(c: char)
  {
    '0' <= c <= '9' || 'A' <= c <= 'F'
  }

  /** The value of an upper-case hexadecimal character, if it is one. */
  function DigitValue(c: char): (d: Option<nat>)
    ensures d.Some? ==> d.value < 16
  {
    if '0' <= c <= '9' then Some(c as int - '0' as int)
    else if 'A' <= c <= 'F' then Some(c as int - 'A' as int + 10)
    else None
  }

  /** The byte whose two hexadecimal digits are `hi` and `lo`. */
  function ByteOf(hi: nat, lo: nat): byte
    requires hi < 16 && lo < 16
  {
    (hi * 16 + lo) as byte
  }

  /** `%02X` of one byte. */
  function HexByte(b: byte): string
  {
    [HexDigit(b as int / 16), HexDigit(b as int % 16)]
  }

  /** The whole digest, byte after byte. */
  function Hex(bytes: seq<byte>): string
  {
    if bytes == [] then []
    else Hex(bytes[..|bytes| - 1]) + HexByte(bytes[|bytes| - 1])
  }

  /** Reads a rendering back: pairs of upper-case hexadecimal characters. */
  function ParseHex(s: string): Option<seq<byte>>
  {
    if s == [] then Some([])
    else if |s| < 2 then None
    else
      var front := ParseHex(s[..|s| - 2]);
      var hi := DigitValue(s[|s| - 2]);
      var lo := DigitValue(s[|s| - 1]);
      if front.Some? && hi.Some? && lo.Some? then Some(front.value + [ByteOf(hi.value, lo.value)])
      else None
  }

  /** Two characters per byte, all of them upper-case hexadecimal digits. */
  lemma {:induction false} HexShape(bytes: seq<byte>)
    ensures |Hex(bytes)| == 2 * |bytes|
    ensures forall k :: 0 <= k < |Hex(bytes)| ==> IsHexDigit(Hex(bytes)[k])
  {
    if bytes != [] {
      HexShape(bytes[..|bytes| - 1]);
    }
  }

  lemma DigitRoundTrip(n: nat)
    requires n < 16
    ensures DigitValue(HexDigit(n)) == Some(n)
  {
  }

  /** Splitting a byte into its two hexadecimal digits loses nothing. */
  lemma ByteFromDigits(b: byte)
    ensures ByteOf(b as int / 16, b as int % 16) == b
  {
  }

  /** Reading one more rendered byte after a rendered prefix. */
  lemma ParseHexStep(s: string, front: seq<byte>, b: byte)
    requires ParseHex(s) == Some(front)
    ensures ParseHex(s + HexByte(b)) == Some(front + [b])
  {
    var t := s + HexByte(b);
    assert t[..|t| - 2] == s;
    assert t[|t| - 2] == HexDigit(b as int / 16);
    assert t[|t| - 1] == HexDigit(b as int % 16);
    DigitRoundTrip(b as int / 16);
    DigitRoundTrip(b as int % 16);
    ByteFromDigits(b);
  }

  /** The rendering loses nothing: it reads back to the digest it came from. */
  lemma {:induction false} ParseHexRoundTrip(bytes: seq<byte>)
    ensures ParseHex(Hex(bytes)) == Some(bytes)
  {
    if bytes != [] {
      var front, b := bytes[..|bytes| - 1], bytes[|bytes| - 1];
      ParseHexRoundTrip(front);
      ParseHexStep(Hex(front), front, b);
      assert bytes == front + [b];
    }
  }

  /** Different digests never print alike. */
  lemma HexInjective(a: seq<byte>, b: seq<byte>)
    requires Hex(a) == Hex(b)
    ensures a == b
  {
    ParseHexRoundTrip(a);
    ParseHexRoundTrip(b);
  }

  /** The printing loop over the digest bytes. */
  method HexDigest(digest: seq<byte>) returns (text: string)
    ensures |text| == 2 * |digest|
    ensures ParseHex(text) == Some(digest)
    ensures text == Hex(digest)
  {
    text := [];
    var i := 0;
    while i < |digest|
      invariant 0 <= i <= |digest|
      invariant text == Hex(digest[..i])
    {
      assert digest[..i + 1][..i] == digest[..i];
      text := text + HexByte(digest[i]);
      i := i + 1;
    }
    assert digest[..i] == digest;
    HexShape(digest);
    ParseHexRoundTrip(digest);
  }
}
