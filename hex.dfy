/**
 * The lowercase hexadecimal encoding the login handler applies to a SHA-256
 * digest: each byte becomes `b.ToString("x2")`, its high nibble then its low
 * nibble, appended to a StringBuilder in byte order.
 */
module HexEncoding {
  import opened Wrappers
  import opened Strings
  import opened Crypto

  /** One lowercase hex digit. */
  function HexDigit(n: int): (c: char)
    requires 0 <= n < 16
    ensures '0' <= c <= '9' || 'a' <= c <= 'f'
  {
    if n < 10 then '0' + n as char else 'a' + (n - 10) as char
  }

  /** `b.ToString("x2")`. */
  function ByteToHex(b: byte): (s: string)
    ensures |s| == 2
  {
    [HexDigit(b / 16), HexDigit(b % 16)]
  }

  /** The encoding of a whole byte sequence. */
  function LowerHex(bytes: seq<byte>): string {
    if bytes == [] then "" else ByteToHex(bytes[0]) + LowerHex(bytes[1..])
  }

  predicate IsLowerHexDigit(c: char) {
    '0' <= c <= '9' || 'a' <= c <= 'f'
  }

  /** The value of a lowercase hex digit; anything else, including an
      uppercase digit, is not one. */
  function HexValue(c: char): (r: Option<int>)
    ensures r.Some? <==> IsLowerHexDigit(c)
    ensures r.Some? ==> 0 <= r.value < 16 && HexDigit(r.value) == c
  {
    if '0' <= c <= '9' then Some(c as int - '0' as int)
    else if 'a' <= c <= 'f' then Some(c as int - 'a' as int + 10)
    else None
  }

  /** The inverse of LowerHex: pairs of lowercase digits back to bytes. */
  function DecodeLowerHex(s: string): Option<seq<byte>> {
    if s == [] then Some([])
    else if |s| == 1 then None
    else
      match (HexValue(s[0]), HexValue(s[1]), DecodeLowerHex(s[2..]))
      case (Some(hi), Some(lo), Some(rest)) => Some([(hi * 16 + lo) as byte] + rest)
      case _ => None
  }

  /** Two characters per byte; characters 2i and 2i+1 are the high and the
      low nibble of byte i. */
  lemma {:induction false} LowerHexAt(bytes: seq<byte>)
    ensures |LowerHex(bytes)| == 2 * |bytes|
    ensures forall i :: 0 <= i < |bytes| ==>
      LowerHex(bytes)[2 * i] == HexDigit(bytes[i] / 16) &&
      LowerHex(bytes)[2 * i + 1] == HexDigit(bytes[i] % 16)
  {
    if bytes != [] {
      LowerHexAt(bytes[1..]);
      var s := LowerHex(bytes);
      assert s == ByteToHex(bytes[0]) + LowerHex(bytes[1..]);
      forall i | 1 <= i < |bytes|
        ensures s[2 * i] == HexDigit(bytes[i] / 16) && s[2 * i + 1] == HexDigit(bytes[i] % 16)
      {
        assert bytes[1..][i - 1] == bytes[i];
        assert s[2 * i] == LowerHex(bytes[1..])[2 * (i - 1)];
        assert s[2 * i + 1] == LowerHex(bytes[1..])[2 * (i - 1) + 1];
      }
    }
  }

  /** Every character of an encoding is in `0-9a-f`. */
  lemma {:induction false} LowerHexDigits(bytes: seq<byte>)
    ensures forall k :: 0 <= k < |LowerHex(bytes)| ==> IsLowerHexDigit(LowerHex(bytes)[k])
  {
    LowerHexAt(bytes);
    forall k | 0 <= k < |LowerHex(bytes)|
      ensures IsLowerHexDigit(LowerHex(bytes)[k])
    {
      var i := k / 2;
      assert HexDigit(bytes[i] / 16) == LowerHex(bytes)[2 * i];
      if k == 2 * i + 1 {
        assert HexDigit(bytes[i] % 16) == LowerHex(bytes)[k];
      }
    }
  }

  /** Appending one byte appends its two digits: the StringBuilder step. */
  lemma {:induction false} LowerHexSnoc(bytes: seq<byte>, b: byte)
    ensures LowerHex(bytes + [b]) == LowerHex(bytes) + ByteToHex(b)
  {
    if bytes != [] {
      assert (bytes + [b])[1..] == bytes[1..] + [b];
      LowerHexSnoc(bytes[1..], b);
    }
  }

  /** Decoding an encoding gives the bytes back. */
  lemma {:induction false} DecodeEncode(bytes: seq<byte>)
    ensures DecodeLowerHex(LowerHex(bytes)) == Some(bytes)
  {
    if bytes != [] {
      var b := bytes[0];
      var s := LowerHex(bytes);
      assert s == ByteToHex(b) + LowerHex(bytes[1..]);
      assert s[2..] == LowerHex(bytes[1..]);
      DecodeEncode(bytes[1..]);
      assert HexValue(s[0]) == Some(b / 16);
      assert HexValue(s[1]) == Some(b % 16);
      assert [b] + bytes[1..] == bytes;
    }
  }

  /** A string that decodes is the encoding of what it decodes to, so the
      encoding is the only spelling of a digest (no uppercase, no odd
      length). */
  lemma {:induction false} EncodeDecode(s: string, bytes: seq<byte>)
    requires DecodeLowerHex(s) == Some(bytes)
    ensures LowerHex(bytes) == s
  {
    if s != [] {
      var hi := HexValue(s[0]).value;
      var lo := HexValue(s[1]).value;
      var rest := DecodeLowerHex(s[2..]).value;
      EncodeDecode(s[2..], rest);
      var b := (hi * 16 + lo) as byte;
      assert bytes == [b] + rest;
      assert bytes[1..] == rest;
      assert b / 16 == hi && b % 16 == lo;
      assert ByteToHex(b) == s[..2];
      assert s == s[..2] + s[2..];
    }
  }

  /** Distinct digests have distinct encodings. */
  lemma LowerHexInjective(a: seq<byte>, b: seq<byte>)
    requires LowerHex(a) == LowerHex(b)
    ensures a == b
  {
    DecodeEncode(a);
    DecodeEncode(b);
  }

  /** The encoding of a SHA-256 digest meets the PasswordHash annotation of
      User: exactly 64 characters, none of them whitespace. */
  lemma DigestFitsPasswordHash(d: Digest)
    ensures |LowerHex(d)| == 64
    ensures !IsBlank(LowerHex(d))
  {
    LowerHexAt(d);
    LowerHexDigits(d);
    assert IsLowerHexDigit(LowerHex(d)[0]);
  }

  /** The encoder loop of the login handler. */
  method ToLowerHex(bytes: seq<byte>) returns (s: string)
    ensures s == LowerHex(bytes)
  {
    s := "";
    for i := 0 to |bytes|
      invariant s == LowerHex(bytes[..i])
    {
      LowerHexSnoc(bytes[..i], bytes[i]);
      assert bytes[..i + 1] == bytes[..i] + [bytes[i]];
      s := s + ByteToHex(bytes[i]);
    }
    assert bytes[..|bytes|] == bytes;
  }
}
