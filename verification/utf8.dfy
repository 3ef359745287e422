/** The UTF-8 encoding of Rust strings (RFC 3629, section 3): the bytes that
    `HeaderValue::from_str` inspects when a `&str` is parsed as a header value. */
module Utf8 {

  /** An octet. */
  type Byte = b: int | 0 <= b < 0x100

  /** The one to four bytes that encode a Unicode scalar value. */
  function EncodeChar(c: char): (bs: seq<Byte>)
    ensures 1 <= |bs| <= 4
    ensures |bs| == 1 <==> c as int < 0x80
    ensures |bs| == 2 <==> 0x80 <= c as int < 0x800
    ensures |bs| == 3 <==> 0x800 <= c as int < 0x1_0000
    ensures |bs| == 4 <==> 0x1_0000 <= c as int
    ensures |bs| == 1 ==> bs[0] == c as int
    ensures |bs| > 1 ==> 0xC0 <= bs[0]
    ensures forall i :: 1 <= i < |bs| ==> 0x80 <= bs[i] < 0xC0
  {
    var n := c as int;
    if n < 0x80 then [n]
    else if n < 0x800 then [0xC0 + n / 0x40, 0x80 + n % 0x40]
    else if n < 0x1_0000 then [0xE0 + n / 0x1000, 0x80 + n / 0x40 % 0x40, 0x80 + n % 0x40]
    else [0xF0 + n / 0x4_0000, 0x80 + n / 0x1000 % 0x40, 0x80 + n / 0x40 % 0x40, 0x80 + n % 0x40]
  }

  /** The code point a well-formed one-to-four byte sequence stands for: the
      payload bits of the lead byte followed by six bits per continuation byte. */
  function DecodeValue(bs: seq<Byte>): int
    requires 1 <= |bs| <= 4
  {
    if |bs| == 1 then bs[0] as int
    else if |bs| == 2 then (bs[0] as int - 0xC0) * 0x40 + (bs[1] as int - 0x80)
    else if |bs| == 3 then ((bs[0] as int - 0xE0) * 0x40 + (bs[1] as int - 0x80)) * 0x40 + (bs[2] as int - 0x80)
    else (((bs[0] as int - 0xF0) * 0x40 + (bs[1] as int - 0x80)) * 0x40 + (bs[2] as int - 0x80)) * 0x40 + (bs[3] as int - 0x80)
  }

  /** Decoding the bytes of a character gives the character back. */
  lemma EncodeCharRoundTrip(c: char)
    ensures DecodeValue(EncodeChar(c)) == c as int
  {
    var n := c as int;
    if 0x1_0000 <= n {
      assert n / 0x4_0000 * 0x40 + n / 0x1000 % 0x40 == n / 0x1000;
      assert n / 0x1000 * 0x40 + n / 0x40 % 0x40 == n / 0x40;
    } else if 0x800 <= n {
      assert n / 0x1000 * 0x40 + n / 0x40 % 0x40 == n / 0x40;
    }
  }

  /** The UTF-8 bytes of a string: the encodings of its characters, in order. */
  function Encode(s: string): (bs: seq<Byte>)
    ensures |s| <= |bs| <= 4 * |s|
    ensures |bs| == |s| <==> forall i :: 0 <= i < |s| ==> s[i] as int < 0x80
  {
    if s == [] then [] else EncodeChar(s[0]) + Encode(s[1..])
  }

  /** Encoding is per character: the bytes of a concatenation are the
      concatenation of the bytes. */
  lemma {:induction false} EncodeAppend(a: string, b: string)
    ensures Encode(a + b) == Encode(a) + Encode(b)
  {
    if a != [] {
      assert (a + b)[1..] == a[1..] + b;
      EncodeAppend(a[1..], b);
    } else {
      assert a + b == b;
    }
  }
}
