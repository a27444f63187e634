/** UTF-8, the encoding in which a Rust `String` hands its text to `base64::encode`. */
module Utf8 {
  import opened Wrappers
  import opened Bytes

  /** The integers that are Unicode scalar values, i.e. the values of `char`. */
  predicate IsScalar(n: int) {
    0 <= n < 0xD800 || 0xE000 <= n < 0x11_0000
  }

  predicate IsContinuation(b: Byte) {
    0x80 <= b < 0xC0
  }

  /** The one to four bytes UTF-8 uses for `c`. */
  function EncodeChar(c: char): (bs: seq<Byte>)
    ensures 1 <= |bs| <= 4
    ensures |bs| == 1 <==> c as int < 0x80
  {
    var n := c as int;
    if n < 0x80 then
      [n]
    else if n < 0x800 then
      [0xC0 + n / 0x40, 0x80 + n % 0x40]
    else if n < 0x1_0000 then
      [0xE0 + n / 0x40 / 0x40, 0x80 + n / 0x40 % 0x40, 0x80 + n % 0x40]
    else
      [0xF0 + n / 0x40 / 0x40 / 0x40, 0x80 + n / 0x40 / 0x40 % 0x40, 0x80 + n / 0x40 % 0x40, 0x80 + n % 0x40]
  }

  /** The bytes of a Rust `String` holding `s`. */
  function Encode(s: string): (bs: seq<Byte>)
    ensures |bs| >= |s|
  {
    if s == [] then [] else EncodeChar(s[0]) + Encode(s[1..])
  }

  /** The six payload bits of a continuation byte. */
  function Low(b: Byte): int {
    b as int - 0x80
  }

  /** The character `n` read from `width` bytes, unless it is no character or needs fewer bytes. */
  function ScalarAt(n: int, least: int, width: nat): Option<(char, nat)> {
    if least <= n && IsScalar(n) then Some((n as char, width)) else None
  }

  /** The first character of `bs` and the number of bytes it takes, if `bs` starts with one. */
  function DecodeFirst(bs: seq<Byte>): (r: Option<(char, nat)>)
    ensures r.Some? ==> 1 <= r.value.1 <= |bs|
  {
    if |bs| == 0 then None
    else
      var b0: int := bs[0];
      if b0 < 0x80 then
        Some((b0 as char, 1))
      else if 0xC0 <= b0 < 0xE0 && |bs| >= 2 && IsContinuation(bs[1]) then
        ScalarAt((b0 - 0xC0) * 0x40 + Low(bs[1]), 0x80, 2)
      else if 0xE0 <= b0 < 0xF0 && |bs| >= 3 && IsContinuation(bs[1]) && IsContinuation(bs[2]) then
        ScalarAt(((b0 - 0xE0) * 0x40 + Low(bs[1])) * 0x40 + Low(bs[2]), 0x800, 3)
      else if 0xF0 <= b0 < 0xF8 && |bs| >= 4
              && IsContinuation(bs[1]) && IsContinuation(bs[2]) && IsContinuation(bs[3]) then
        ScalarAt((((b0 - 0xF0) * 0x40 + Low(bs[1])) * 0x40 + Low(bs[2])) * 0x40 + Low(bs[3]), 0x1_0000, 4)
      else
        None
  }

  /**
   * The text whose UTF-8 encoding is `bs`, if there is one: overlong forms, surrogates and values
   * above U+10FFFF are refused.
   */
  function Decode(bs: seq<Byte>): Option<string>
    decreases |bs|
  {
    if bs == [] then Some([])
    else match DecodeFirst(bs)
      case None => None
      case Some((c, width)) =>
        match Decode(bs[width..])
        case None => None
        case Some(rest) => Some([c] + rest)
  }

  /** Decoding reads back each encoded character, whatever follows it. */
  lemma DecodeFirstEncodeChar(c: char, rest: seq<Byte>)
    ensures DecodeFirst(EncodeChar(c) + rest) == Some((c, |EncodeChar(c)|))
  {
    var n := c as int;
    var bs := EncodeChar(c) + rest;
    if n < 0x80 {
    } else if n < 0x800 {
      assert bs[0] == 0xC0 + n / 0x40 && bs[1] == 0x80 + n % 0x40;
      assert (bs[0] - 0xC0) * 0x40 + Low(bs[1]) == n;
    } else if n < 0x1_0000 {
      var q := n / 0x40;
      assert bs[0] == 0xE0 + q / 0x40 && bs[1] == 0x80 + q % 0x40 && bs[2] == 0x80 + n % 0x40;
      assert (bs[0] - 0xE0) * 0x40 + Low(bs[1]) == q;
      assert q * 0x40 + Low(bs[2]) == n;
    } else {
      var q := n / 0x40;
      var q2 := q / 0x40;
      assert bs[0] == 0xF0 + q2 / 0x40 && bs[1] == 0x80 + q2 % 0x40;
      assert bs[2] == 0x80 + q % 0x40 && bs[3] == 0x80 + n % 0x40;
      assert (bs[0] - 0xF0) * 0x40 + Low(bs[1]) == q2;
      assert q2 * 0x40 + Low(bs[2]) == q;
      assert q * 0x40 + Low(bs[3]) == n;
    }
  }

  /** Decode is a left inverse of Encode: the text is recoverable from its bytes. */
  lemma {:induction false} DecodeEncode(s: string)
    ensures Decode(Encode(s)) == Some(s)
  {
    if s != [] {
      var head := EncodeChar(s[0]);
      DecodeFirstEncodeChar(s[0], Encode(s[1..]));
      assert (head + Encode(s[1..]))[|head|..] == Encode(s[1..]);
      DecodeEncode(s[1..]);
      assert [s[0]] + s[1..] == s;
    }
  }

  /** Text made only of ASCII characters is stored one byte per character, each its code. */
  lemma {:induction false} EncodeAscii(s: string)
    requires forall i :: 0 <= i < |s| ==> s[i] as int < 0x80
    ensures |Encode(s)| == |s|
    ensures forall i :: 0 <= i < |s| ==> Encode(s)[i] == s[i] as int
  {
    if s != [] {
      EncodeAscii(s[1..]);
    }
  }

  /** Text is encoded character by character, so encoding distributes over concatenation. */
  lemma {:induction false} EncodeConcat(a: string, b: string)
    ensures Encode(a + b) == Encode(a) + Encode(b)
  {
    if a == [] {
      assert a + b == b;
    } else {
      var t := a[1..];
      assert Encode(a + b) == EncodeChar(a[0]) + Encode(t + b) by {
        assert (a + b)[0] == a[0] && (a + b)[1..] == t + b;
      }
      assert Encode(t + b) == Encode(t) + Encode(b) by {
        EncodeConcat(t, b);
      }
      assert Encode(a) == EncodeChar(a[0]) + Encode(t);
    }
  }

  /** The character decoded from the start of `bs` encodes as exactly the bytes it was read from. */
  lemma EncodeCharDecodeFirst(bs: seq<Byte>)
    requires DecodeFirst(bs).Some?
    ensures EncodeChar(DecodeFirst(bs).value.0) == bs[..DecodeFirst(bs).value.1]
  {
    var b0: int := bs[0];
    var c := DecodeFirst(bs).value.0;
    var n := c as int;
    if b0 < 0x80 {
      assert EncodeChar(c) == [b0];
    } else if 0xC0 <= b0 < 0xE0 {
      var hi := b0 - 0xC0;
      assert n == hi * 0x40 + Low(bs[1]);
      assert n / 0x40 == hi && n % 0x40 == Low(bs[1]);
      assert EncodeChar(c) == [0xC0 + hi, bs[1]];
      assert bs[..2] == [bs[0], bs[1]];
    } else if 0xE0 <= b0 < 0xF0 {
      var hi := b0 - 0xE0;
      var q := hi * 0x40 + Low(bs[1]);
      assert n == q * 0x40 + Low(bs[2]);
      assert n / 0x40 == q && n % 0x40 == Low(bs[2]);
      assert q / 0x40 == hi && q % 0x40 == Low(bs[1]);
      assert EncodeChar(c) == [0xE0 + hi, bs[1], bs[2]];
      assert bs[..3] == [bs[0], bs[1], bs[2]];
    } else {
      var hi := b0 - 0xF0;
      var q2 := hi * 0x40 + Low(bs[1]);
      var q := q2 * 0x40 + Low(bs[2]);
      assert n == q * 0x40 + Low(bs[3]);
      assert n / 0x40 == q && n % 0x40 == Low(bs[3]);
      assert q / 0x40 == q2 && q % 0x40 == Low(bs[2]);
      assert q2 / 0x40 == hi && q2 % 0x40 == Low(bs[1]);
      assert EncodeChar(c) == [0xF0 + hi, bs[1], bs[2], bs[3]];
      assert bs[..4] == [bs[0], bs[1], bs[2], bs[3]];
    }
  }

  /** Encode is a left inverse of Decode: bytes that decode are the encoding of what they decode to. */
  lemma {:induction false} EncodeDecode(bs: seq<Byte>)
    requires Decode(bs).Some?
    ensures Encode(Decode(bs).value) == bs
    decreases |bs|
  {
    if bs != [] {
      var (c, width) := DecodeFirst(bs).value;
      var rest := Decode(bs[width..]).value;
      EncodeDecode(bs[width..]);
      EncodeCharDecodeFirst(bs);
      assert Decode(bs).value == [c] + rest;
      assert ([c] + rest)[1..] == rest;
      assert bs[..width] + bs[width..] == bs;
    }
  }

  /** The overlong two-byte form of U+0000 is refused. */
  lemma OverlongRefused()
    ensures Decode([0xC0, 0x80]) == None
  {
    assert DecodeFirst([0xC0, 0x80]) == None;
  }
}
