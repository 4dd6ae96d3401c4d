/** The UTF-8 bytes of a request id, which become the key of a hint and the bytes the node
    mapper hashes. The id is a sequence of Unicode scalar values, each encoded by standard
    UTF-8 in one to four bytes. A decoder is given as its inverse, so that the encoding is shown
    to lose nothing: different ids give different hint keys. */
module Utf8 {
  import opened Types

  /** The one to four bytes of the UTF-8 form of one Unicode scalar value. */
  function EncodeChar(c: char): (r: Bytes)
    ensures 1 <= |r| <= 4
    ensures |r| == 1 <==> c as int < 0x80
    ensures |r| == 1 ==> r[0] as int == c as int
  {
    var n := c as int;
    if n < 0x80 then
      [n as byte]
    else if n < 0x800 then
      [(0xC0 + n / 0x40) as byte, (0x80 + n % 0x40) as byte]
    else if n < 0x1_0000 then
      [(0xE0 + n / 0x1000) as byte, (0x80 + n / 0x40 % 0x40) as byte, (0x80 + n % 0x40) as byte]
    else
      [(0xF0 + n / 0x4_0000) as byte, (0x80 + n / 0x1000 % 0x40) as byte,
       (0x80 + n / 0x40 % 0x40) as byte, (0x80 + n % 0x40) as byte]
  }

  /** The UTF-8 form of a whole string: the characters' forms, one after the other. */
  function Encode(s: string): (r: Bytes)
    ensures |s| <= |r| <= 4 * |s|
  {
    if s == [] then [] else EncodeChar(s[0]) + Encode(s[1..])
  }

  /** How many bytes the sequence that starts with lead byte `b` occupies (0: not a lead byte). */
  function SequenceLength(b: byte): nat
  {
    if b < 0x80 then 1
    else if 0xC0 <= b < 0xE0 then 2
    else if 0xE0 <= b < 0xF0 then 3
    else if 0xF0 <= b < 0xF8 then 4
    else 0
  }

  /** The scalar value that a sequence of `len` bytes at the head of `bs` spells out. */
  function ScalarValue(bs: Bytes, len: nat): int
    requires 1 <= len <= 4 && len <= |bs|
  {
    if len == 1 then bs[0] as int
    else if len == 2 then (bs[0] as int - 0xC0) * 0x40 + (bs[1] as int - 0x80)
    else if len == 3 then (bs[0] as int - 0xE0) * 0x1000 + (bs[1] as int - 0x80) * 0x40 + (bs[2] as int - 0x80)
    else (bs[0] as int - 0xF0) * 0x4_0000 + (bs[1] as int - 0x80) * 0x1000
         + (bs[2] as int - 0x80) * 0x40 + (bs[3] as int - 0x80)
  }

  predicate IsScalar(n: int)
  {
    0 <= n < 0xD800 || 0xE000 <= n < 0x11_0000
  }

  /** Inverse of `Encode`: `None` for bytes that do not split into lead-byte sequences
      spelling Unicode scalar values. */
  function Decode(bs: Bytes): (r: Option<string>)
    ensures r.Some? ==> |r.value| <= |bs|
    decreases |bs|
  {
    if bs == [] then Some([])
    else
      var len := SequenceLength(bs[0]);
      if len == 0 || |bs| < len then None
      else
        var n := ScalarValue(bs, len);
        if !IsScalar(n) then None
        else match Decode(bs[len..])
          case None => None
          case Some(rest) => Some([n as char] + rest)
  }

  /** The digits of `n` in base 64, as the continuation bytes carry them. */
  lemma Base64Digits(n: int)
    requires 0 <= n
    ensures n == n / 0x40 * 0x40 + n % 0x40
    ensures n / 0x40 == n / 0x1000 * 0x40 + n / 0x40 % 0x40
    ensures n / 0x1000 == n / 0x4_0000 * 0x40 + n / 0x1000 % 0x40
  {
  }

  /** The lead byte of a character's form announces its length, and the bytes spell its value. */
  lemma DecodeEncodeChar(c: char, tail: Bytes)
    ensures var bs := EncodeChar(c) + tail;
      SequenceLength(bs[0]) == |EncodeChar(c)| && ScalarValue(bs, |EncodeChar(c)|) == c as int
  {
    var n := c as int;
    var bs := EncodeChar(c) + tail;
    Base64Digits(n);
    if n < 0x80 {
    } else if n < 0x800 {
      assert bs[0] as int == 0xC0 + n / 0x40 && bs[1] as int == 0x80 + n % 0x40;
    } else if n < 0x1_0000 {
      assert bs[0] as int == 0xE0 + n / 0x1000;
      assert bs[1] as int == 0x80 + n / 0x40 % 0x40 && bs[2] as int == 0x80 + n % 0x40;
    } else {
      assert bs[0] as int == 0xF0 + n / 0x4_0000;
      assert bs[1] as int == 0x80 + n / 0x1000 % 0x40;
      assert bs[2] as int == 0x80 + n / 0x40 % 0x40 && bs[3] as int == 0x80 + n % 0x40;
    }
  }

  /** Decoding undoes encoding: the UTF-8 form determines the string. */
  lemma {:induction false} DecodeEncode(s: string)
    ensures Decode(Encode(s)) == Some(s)
  {
    if s != [] {
      var head := EncodeChar(s[0]);
      var bs := Encode(s);
      assert bs == head + Encode(s[1..]);
      DecodeEncodeChar(s[0], Encode(s[1..]));
      assert bs[|head|..] == Encode(s[1..]);
      DecodeEncode(s[1..]);
      var n := s[0] as int;
      assert IsScalar(n);
      assert n as char == s[0];
      assert Decode(bs) == Some([s[0]] + s[1..]);
      assert [s[0]] + s[1..] == s;
    }
  }

  /** Two ids with the same UTF-8 bytes are the same id. */
  lemma EncodeInjective(s: string, t: string)
    requires Encode(s) == Encode(t)
    ensures s == t
  {
    DecodeEncode(s);
    DecodeEncode(t);
  }

  /** An ASCII string is encoded byte for byte. */
  lemma {:induction false} EncodeAscii(s: string)
    requires forall i :: 0 <= i < |s| ==> s[i] as int < 0x80
    ensures |Encode(s)| == |s|
    ensures forall i :: 0 <= i < |s| ==> Encode(s)[i] as int == s[i] as int
  {
    if s != [] {
      EncodeAscii(s[1..]);
    }
  }
}
