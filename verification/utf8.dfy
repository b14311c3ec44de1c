/** UTF-8 encoding of text, as in RFC 3629, section 3: each Unicode scalar
    value takes one to four bytes, depending on its range. The request gate
    measures text by the length of this encoding. */
module Utf8 {

  type byte = b: int | 0 <= b < 256

  datatype Option<T> = None | Some(value: T)

  /** The number of bytes RFC 3629 assigns to a code point: 1 up to U+007F,
      2 up to U+07FF, 3 up to U+FFFF, 4 above. */
  function Width(c: char): (w: int)
    ensures 1 <= w <= 4
  {
    var n := c as int;
    if n < 0x80 then 1 else if n < 0x800 then 2 else if n < 0x10000 then 3 else 4
  }

  predicate IsContinuation(b: byte) {
    0x80 <= b < 0xC0
  }

  /** The six payload bits of a continuation byte. */
  function Payload(b: byte): int
    requires IsContinuation(b)
  {
    b as int - 0x80
  }

  /** The UTF-8 byte sequence of one code point. */
  function EncodeChar(c: char): (bs: seq<byte>)
    ensures |bs| == Width(c)
    ensures |bs| == 1 <==> bs[0] < 0x80
    ensures forall i :: 1 <= i < |bs| ==> IsContinuation(bs[i])
  {
    var n := c as int;
    if n < 0x80 then [n]
    else if n < 0x800 then [0xC0 + n / 0x40, 0x80 + n % 0x40]
    else if n < 0x10000 then [0xE0 + n / 0x1000, 0x80 + (n / 0x40) % 0x40, 0x80 + n % 0x40]
    else [0xF0 + n / 0x40000, 0x80 + (n / 0x1000) % 0x40, 0x80 + (n / 0x40) % 0x40, 0x80 + n % 0x40]
  }

  /** Reads one well-formed UTF-8 sequence back into its code point;
      overlong forms, surrogates and values above U+10FFFF are rejected. */
  function DecodeChar(bs: seq<byte>): Option<char> {
    if |bs| == 1 && bs[0] < 0x80 then
      Some(bs[0] as char)
    else if |bs| == 2 && 0xC2 <= bs[0] < 0xE0 && IsContinuation(bs[1]) then
      Some(((bs[0] as int - 0xC0) * 0x40 + Payload(bs[1])) as char)
    else if |bs| == 3 && 0xE0 <= bs[0] < 0xF0 && IsContinuation(bs[1]) && IsContinuation(bs[2]) then
      var n := (bs[0] as int - 0xE0) * 0x1000 + Payload(bs[1]) * 0x40 + Payload(bs[2]);
      if 0x800 <= n && !(0xD800 <= n < 0xE000) then Some(n as char) else None
    else if |bs| == 4 && 0xF0 <= bs[0] < 0xF5 && IsContinuation(bs[1])
                      && IsContinuation(bs[2]) && IsContinuation(bs[3]) then
      var n := (bs[0] as int - 0xF0) * 0x40000 + Payload(bs[1]) * 0x1000
             + Payload(bs[2]) * 0x40 + Payload(bs[3]);
      if 0x10000 <= n < 0x110000 then Some(n as char) else None
    else
      None
  }

  /** Encoding a code point loses nothing: decoding gives it back. */
  lemma DecodeEncodeChar(c: char)
    ensures DecodeChar(EncodeChar(c)) == Some(c)
  {
    var n := c as int;
    if n < 0x80 {
    } else if n < 0x800 {
      DecodeEncodeTwo(c);
    } else if n < 0x10000 {
      DecodeEncodeThree(c);
    } else {
      DecodeEncodeFour(c);
    }
  }

  lemma DecodeEncodeTwo(c: char)
    requires 0x80 <= c as int < 0x800
    ensures DecodeChar(EncodeChar(c)) == Some(c)
  {
    var n := c as int;
    var q, r := n / 0x40, n % 0x40;
    assert n == q * 0x40 + r;
    var bs := EncodeChar(c);
    assert bs == [0xC0 + q, 0x80 + r];
    assert 2 <= q < 0x20;
    assert (bs[0] as int - 0xC0) * 0x40 + Payload(bs[1]) == n;
  }

  lemma DecodeEncodeThree(c: char)
    requires 0x800 <= c as int < 0x10000
    ensures DecodeChar(EncodeChar(c)) == Some(c)
  {
    var n := c as int;
    var q2, r2 := n / 0x40, n % 0x40;
    var q1, r1 := q2 / 0x40, q2 % 0x40;
    assert n == q2 * 0x40 + r2;
    assert q2 == q1 * 0x40 + r1;
    assert q1 == n / 0x1000;
    var bs := EncodeChar(c);
    assert bs == [0xE0 + q1, 0x80 + r1, 0x80 + r2];
    assert (bs[0] as int - 0xE0) * 0x1000 + Payload(bs[1]) * 0x40 + Payload(bs[2]) == n;
  }

  lemma DecodeEncodeFour(c: char)
    requires 0x10000 <= c as int
    ensures DecodeChar(EncodeChar(c)) == Some(c)
  {
    var n := c as int;
    var q3, r3 := n / 0x40, n % 0x40;
    var q2, r2 := q3 / 0x40, q3 % 0x40;
    var q1, r1 := q2 / 0x40, q2 % 0x40;
    assert n == q3 * 0x40 + r3;
    assert q3 == q2 * 0x40 + r2;
    assert q2 == q1 * 0x40 + r1;
    assert q2 == n / 0x1000;
    assert q1 == n / 0x40000;
    var bs := EncodeChar(c);
    assert bs == [0xF0 + q1, 0x80 + r1, 0x80 + r2, 0x80 + r3];
    assert (bs[0] as int - 0xF0) * 0x40000 + Payload(bs[1]) * 0x1000
         + Payload(bs[2]) * 0x40 + Payload(bs[3]) == n;
  }

  /** `text.encode('utf-8')`. */
  function Encode(s: string): (bs: seq<byte>)
    ensures |s| <= |bs| <= 4 * |s|
  {
    if s == [] then [] else EncodeChar(s[0]) + Encode(s[1..])
  }

  /** The byte length the gate compares against its limit, counted code
      point by code point. */
  function ByteLength(s: string): (n: nat)
    ensures |s| <= n <= 4 * |s|
  {
    if s == [] then 0 else Width(s[0]) + ByteLength(s[1..])
  }

  lemma {:induction false} ByteLengthIsEncodedLength(s: string)
    ensures ByteLength(s) == |Encode(s)|
  {
    if s != [] {
      ByteLengthIsEncodedLength(s[1..]);
    }
  }

  /** Encoding works piecewise: the bytes of a concatenation are the
      concatenated bytes. */
  lemma {:induction false} EncodeAppend(a: string, b: string)
    ensures Encode(a + b) == Encode(a) + Encode(b)
  {
    if a != [] {
      assert (a + b)[0] == a[0];
      assert (a + b)[1..] == a[1..] + b;
      EncodeAppend(a[1..], b);
      assert Encode(a + b) == EncodeChar(a[0]) + (Encode(a[1..]) + Encode(b));
      assert Encode(a) == EncodeChar(a[0]) + Encode(a[1..]);
      assert EncodeChar(a[0]) + (Encode(a[1..]) + Encode(b))
          == (EncodeChar(a[0]) + Encode(a[1..])) + Encode(b);
    } else {
      assert a + b == b;
    }
  }

  /** Pure ASCII text takes one byte per character. */
  lemma {:induction false} AsciiByteLength(s: string)
    requires forall i :: 0 <= i < |s| ==> (s[i] as int) < 0x80
    ensures |Encode(s)| == |s|
  {
    if s != [] {
      assert (s[0] as int) < 0x80;
      assert |EncodeChar(s[0])| == 1;
      AsciiByteLength(s[1..]);
    }
  }
}
