/** Lowercase hexadecimal rendering of digests: the `printf("%02x", ...)`
    loop the C programs print after `Hash: `, Go's `fmt.Sprintf("%x", ...)`
    that forms the bucket key, and Python's `bytes.hex()`. This is the
    base16 encoding of section 8 of RFC 4648 with the lowercase alphabet:
    two characters per byte, high nibble first. `Decode` is its inverse,
    used to show that equal keys come only from equal digests. */
module Hex {
  import opened Types

  /** The lowercase hex digit for a value 0..15. */
  function Digit(v: int): (c: char)
    requires 0 <= v < 16
    ensures IsHexDigit(c)
    ensures c == "0123456789abcdef"[v]
  {
    if v < 10 then ('0' as int + v) as char else ('a' as int + v - 10) as char
  }

  /** The value of a lowercase hex digit; upper-case letters and any other
      character are rejected. */
  function DigitValue(c: char): (r: Option<int>)
    ensures r.Some? <==> IsHexDigit(c)
    ensures r.Some? ==> 0 <= r.value < 16 && Digit(r.value) == c
  {
    if '0' <= c <= '9' then Some(c as int - '0' as int)
    else if 'a' <= c <= 'f' then Some(c as int - 'a' as int + 10)
    else None
  }

  predicate IsHexDigit(c: char) {
    '0' <= c <= '9' || 'a' <= c <= 'f'
  }

  /** `%02x` of one byte: the high nibble, then the low nibble. */
  function ByteHex(b: Byte): string {
    [Digit(b / 16), Digit(b % 16)]
  }

  /** The base16 text of a byte string. */
  function Encode(bytes: seq<Byte>): (s: string)
    ensures |s| == 2 * |bytes|
    ensures forall i :: 0 <= i < |s| ==> IsHexDigit(s[i])
  {
    if bytes == [] then [] else ByteHex(bytes[0]) + Encode(bytes[1..])
  }

  /** Base16 text back to bytes; `None` for odd length or a character
      outside the lowercase alphabet. */
  function Decode(s: string): Option<seq<Byte>>
  {
    if s == [] then Some([])
    else if |s| == 1 then None
    else match (DigitValue(s[0]), DigitValue(s[1]), Decode(s[2..]))
      case (Some(hi), Some(lo), Some(rest)) => Some([hi * 16 + lo] + rest)
      case _ => None
  }

  /** Appending a byte appends its two digits: the shape of the C loop. */
  lemma {:induction false} EncodeAppend(bytes: seq<Byte>, b: Byte)
    ensures Encode(bytes + [b]) == Encode(bytes) + ByteHex(b)
  {
    if bytes != [] {
      assert (bytes + [b])[1..] == bytes[1..] + [b];
      EncodeAppend(bytes[1..], b);
    }
  }

  /** Decoding the encoding gives back the bytes. */
  lemma {:induction false} DecodeEncode(bytes: seq<Byte>)
    ensures Decode(Encode(bytes)) == Some(bytes)
  {
    if bytes != [] {
      var s := Encode(bytes);
      var b := bytes[0];
      assert s == ByteHex(b) + Encode(bytes[1..]);
      assert s[2..] == Encode(bytes[1..]);
      DecodeEncode(bytes[1..]);
      ByteHexDecodes(b);
      assert s[0] == ByteHex(b)[0] && s[1] == ByteHex(b)[1];
      assert [b] + bytes[1..] == bytes;
    }
  }

  /** The two digits of a byte read back as its high and low nibble. */
  lemma ByteHexDecodes(b: Byte)
    ensures DigitValue(ByteHex(b)[0]) == Some(b / 16)
    ensures DigitValue(ByteHex(b)[1]) == Some(b % 16)
    ensures b == (b / 16) * 16 + b % 16
  {
  }

  /** Whatever decodes, encodes back to the same text. */
  lemma {:induction false} EncodeDecode(s: string, bytes: seq<Byte>)
    requires Decode(s) == Some(bytes)
    ensures Encode(bytes) == s
  {
    if s != [] {
      var rest := Decode(s[2..]).value;
      EncodeDecode(s[2..], rest);
      var b := PairByte(s[0], s[1]);
      assert bytes == [b] + rest;
      assert bytes[1..] == rest;
      assert s == [s[0], s[1]] + s[2..];
    }
  }

  /** Two hex digits that decode give the byte that prints as them. */
  lemma PairByte(c0: char, c1: char) returns (b: Byte)
    requires DigitValue(c0).Some? && DigitValue(c1).Some?
    ensures b == DigitValue(c0).value * 16 + DigitValue(c1).value
    ensures ByteHex(b) == [c0, c1]
  {
    var hi, lo := DigitValue(c0).value, DigitValue(c1).value;
    b := hi * 16 + lo;
    assert b / 16 == hi && b % 16 == lo;
  }

  /** Two digests have the same text exactly when they are equal. */
  lemma EncodeInjective(a: seq<Byte>, b: seq<Byte>)
    ensures Encode(a) == Encode(b) <==> a == b
  {
    if Encode(a) == Encode(b) {
      DecodeEncode(a);
      DecodeEncode(b);
    }
  }

  /** The printed form of one record's digest: the `for` loop over the
      DigestLength bytes with `printf("%02x", ...)` per byte. */
  method FormatDigest(hash: Digest) returns (s: string)
    ensures s == Encode(hash)
    ensures |s| == 2 * DigestLength
  {
    s := [];
    var j := 0;
    while j < DigestLength
      invariant 0 <= j <= DigestLength
      invariant s == Encode(hash[..j])
    {
      EncodeAppend(hash[..j], hash[j]);
      assert hash[..j + 1] == hash[..j] + [hash[j]];
      s := s + ByteHex(hash[j]);
      j := j + 1;
    }
    assert hash[..j] == hash;
  }
}
