/**
 * Base 64 encoding as defined in section 4 of RFC 4648 (standard alphabet, `=` padding),
 * the encoding `base64::encode` applies to the credentials of the Authorization header.
 */
module Base64 {
  import opened Wrappers
  import opened Bytes

  /** The 64 characters of the alphabet of section 4 of RFC 4648. */
  predicate IsAlphabetChar(c: char) {
    'A' <= c <= 'Z' || 'a' <= c <= 'z' || '0' <= c <= '9' || c == '+' || c == '/'
  }

  /** The padding character. */
  const Pad := '='

  /** The character standing for the six-bit value `v`: `A`-`Z`, `a`-`z`, `0`-`9`, `+`, `/`. */
  function CharOf(v: int): (c: char)
    requires 0 <= v < 64
    ensures IsAlphabetChar(c)
  {
    if v < 26 then ('A' as int + v) as char
    else if v < 52 then ('a' as int + (v - 26)) as char
    else if v < 62 then ('0' as int + (v - 52)) as char
    else if v == 62 then '+'
    else '/'
  }

  /** The six-bit value an alphabet character stands for. */
  function ValueOf(c: char): (r: Option<int>)
    ensures r.Some? <==> IsAlphabetChar(c)
    ensures r.Some? ==> 0 <= r.value < 64 && CharOf(r.value) == c
  {
    if 'A' <= c <= 'Z' then Some(c as int - 'A' as int)
    else if 'a' <= c <= 'z' then Some(c as int - 'a' as int + 26)
    else if '0' <= c <= '9' then Some(c as int - '0' as int + 52)
    else if c == '+' then Some(62)
    else if c == '/' then Some(63)
    else None
  }

  lemma ValueOfCharOf(v: int)
    requires 0 <= v < 64
    ensures ValueOf(CharOf(v)) == Some(v)
  {
  }

  /**
   * The four six-bit values of a 24-bit group: the top six bits of the first byte, its low two
   * bits with the top four of the second, its low four with the top two of the third, and the
   * low six bits of the third.
   */
  function Sextets(b0: Byte, b1: Byte, b2: Byte): (v: seq<int>)
    ensures |v| == 4 && forall i :: 0 <= i < 4 ==> 0 <= v[i] < 64
  {
    [b0 / 4, b0 % 4 * 16 + b1 / 16, b1 % 16 * 4 + b2 / 64, b2 % 64]
  }

  /** Three bytes as four characters. */
  function Quad3(b0: Byte, b1: Byte, b2: Byte): (q: string)
    ensures |q| == 4
  {
    var v := Sextets(b0, b1, b2);
    [CharOf(v[0]), CharOf(v[1]), CharOf(v[2]), CharOf(v[3])]
  }

  /** Two final bytes, completed with zero bits, as three characters and one `=`. */
  function Quad2(b0: Byte, b1: Byte): (q: string)
    ensures |q| == 4
  {
    var v := Sextets(b0, b1, 0);
    [CharOf(v[0]), CharOf(v[1]), CharOf(v[2]), Pad]
  }

  /** One final byte, completed with zero bits, as two characters and `==`. */
  function Quad1(b0: Byte): (q: string)
    ensures |q| == 4
  {
    var v := Sextets(b0, 0, 0);
    [CharOf(v[0]), CharOf(v[1]), Pad, Pad]
  }

  /** The encoding of `bs`: each group of three bytes as four characters, the last group padded. */
  function Encode(bs: seq<Byte>): (s: string)
    ensures |s| == 0 <==> |bs| == 0
    decreases |bs|
  {
    if |bs| == 0 then []
    else if |bs| == 1 then Quad1(bs[0])
    else if |bs| == 2 then Quad2(bs[0], bs[1])
    else Quad3(bs[0], bs[1], bs[2]) + Encode(bs[3..])
  }

  /** The three bytes whose sextets are `v0`..`v3`. */
  function Bytes3(v0: int, v1: int, v2: int, v3: int): seq<Byte>
    requires 0 <= v0 < 64 && 0 <= v1 < 64 && 0 <= v2 < 64 && 0 <= v3 < 64
  {
    [v0 * 4 + v1 / 16, v1 % 16 * 16 + v2 / 4, v2 % 4 * 64 + v3]
  }

  /** Four alphabet characters back to three bytes. */
  function DecodeQuad3(q: string): Option<seq<Byte>>
    requires |q| == 4
  {
    match (ValueOf(q[0]), ValueOf(q[1]), ValueOf(q[2]), ValueOf(q[3]))
    case (Some(v0), Some(v1), Some(v2), Some(v3)) => Some(Bytes3(v0, v1, v2, v3))
    case _ => None
  }

  /** The last group of an encoding, which may end in one or two `=`; the dropped bits must be zero. */
  function DecodeLast(q: string): Option<seq<Byte>>
    requires |q| == 4
  {
    if q[2] == Pad && q[3] == Pad then
      match (ValueOf(q[0]), ValueOf(q[1]))
      case (Some(v0), Some(v1)) =>
        if v1 % 16 == 0 then Some(Bytes3(v0, v1, 0, 0)[..1]) else None
      case _ => None
    else if q[3] == Pad then
      match (ValueOf(q[0]), ValueOf(q[1]), ValueOf(q[2]))
      case (Some(v0), Some(v1), Some(v2)) =>
        if v2 % 4 == 0 then Some(Bytes3(v0, v1, v2, 0)[..2]) else None
      case _ => None
    else
      DecodeQuad3(q)
  }

  /** The bytes `s` encodes, if `s` is a canonical encoding. */
  function Decode(s: string): Option<seq<Byte>>
    decreases |s|
  {
    if |s| == 0 then Some([])
    else if |s| < 4 then None
    else if |s| == 4 then DecodeLast(s)
    else
      match DecodeQuad3(s[..4])
      case None => None
      case Some(head) =>
        match Decode(s[4..])
        case None => None
        case Some(rest) => Some(head + rest)
  }

  /** Regrouping the sextets of three bytes gives back the bytes. */
  lemma Regroup(b0: Byte, b1: Byte, b2: Byte)
    ensures var v := Sextets(b0, b1, b2); Bytes3(v[0], v[1], v[2], v[3]) == [b0, b1, b2]
  {
    var v := Sextets(b0, b1, b2);
    assert v[0] * 4 + v[1] / 16 == b0;
    assert v[1] % 16 * 16 + v[2] / 4 == b1;
    assert v[2] % 4 * 64 + v[3] == b2;
  }

  lemma DecodeQuad3Inverts(b0: Byte, b1: Byte, b2: Byte)
    ensures DecodeQuad3(Quad3(b0, b1, b2)) == Some([b0, b1, b2])
  {
    var v := Sextets(b0, b1, b2);
    var q := Quad3(b0, b1, b2);
    ValueOfCharOf(v[0]);
    ValueOfCharOf(v[1]);
    ValueOfCharOf(v[2]);
    ValueOfCharOf(v[3]);
    Regroup(b0, b1, b2);
  }

  lemma DecodeLastInverts2(b0: Byte, b1: Byte)
    ensures DecodeLast(Quad2(b0, b1)) == Some([b0, b1])
  {
    var v := Sextets(b0, b1, 0);
    var q := Quad2(b0, b1);
    ValueOfCharOf(v[0]);
    ValueOfCharOf(v[1]);
    ValueOfCharOf(v[2]);
    assert ValueOf(q[0]) == Some(v[0]) && ValueOf(q[1]) == Some(v[1]) && ValueOf(q[2]) == Some(v[2]);
    assert v[2] % 4 == 0;
    Regroup(b0, b1, 0);
    assert v[3] == 0;
    var g := Bytes3(v[0], v[1], v[2], 0);
    assert g[..2] == [b0, b1];
  }

  lemma DecodeLastInverts1(b0: Byte)
    ensures DecodeLast(Quad1(b0)) == Some([b0])
  {
    var v := Sextets(b0, 0, 0);
    var q := Quad1(b0);
    ValueOfCharOf(v[0]);
    ValueOfCharOf(v[1]);
    assert ValueOf(q[0]) == Some(v[0]) && ValueOf(q[1]) == Some(v[1]);
    assert v[1] % 16 == 0;
    Regroup(b0, 0, 0);
    assert v[2] == 0 && v[3] == 0;
    var g := Bytes3(v[0], v[1], 0, 0);
    assert g[..1] == [b0];
  }

  /** Decode on a single group of four characters, unfolded once. */
  lemma DecodeOneGroup(q: string)
    requires |q| == 4
    ensures Decode(q) == DecodeLast(q)
  {
  }

  lemma DecodeQuad1(b0: Byte)
    ensures Decode(Quad1(b0)) == Some([b0])
  {
    DecodeOneGroup(Quad1(b0));
    DecodeLastInverts1(b0);
  }

  lemma DecodeQuad2(b0: Byte, b1: Byte)
    ensures Decode(Quad2(b0, b1)) == Some([b0, b1])
  {
    DecodeOneGroup(Quad2(b0, b1));
    DecodeLastInverts2(b0, b1);
  }

  lemma RoundTrip1(bs: seq<Byte>)
    requires |bs| == 1
    ensures Decode(Encode(bs)) == Some(bs)
  {
    assert bs == [bs[0]];
    assert Encode(bs) == Quad1(bs[0]);
    DecodeQuad1(bs[0]);
  }

  lemma RoundTrip2(bs: seq<Byte>)
    requires |bs| == 2
    ensures Decode(Encode(bs)) == Some(bs)
  {
    assert bs == [bs[0], bs[1]];
    assert Encode(bs) == Quad2(bs[0], bs[1]);
    DecodeQuad2(bs[0], bs[1]);
  }

  lemma RoundTrip3(bs: seq<Byte>)
    requires |bs| == 3
    ensures Decode(Encode(bs)) == Some(bs)
  {
    var q := Encode(bs);
    GroupRoundTrip(bs);
    DecodeOneGroup(q);
    assert q[3] != Pad by {
      EncodeStep(bs);
      assert IsAlphabetChar(q[3]);
    }
  }

  /** Encode on three or more bytes, unfolded once. */
  lemma EncodeStep(bs: seq<Byte>)
    requires |bs| >= 3
    ensures Encode(bs) == Quad3(bs[0], bs[1], bs[2]) + Encode(bs[3..])
  {
  }

  /** Decode on a full group followed by more characters, unfolded once. */
  lemma DecodeStep(q: string, rest: string)
    requires |q| == 4 && |rest| > 0
    ensures Decode(q + rest) ==
      match DecodeQuad3(q)
      case None => None
      case Some(head) => (match Decode(rest) case None => None case Some(tail) => Some(head + tail))
  {
    var s := q + rest;
    assert s[..4] == q && s[4..] == rest;
  }

  /** A group of three bytes encodes as four characters that decode back to it. */
  lemma GroupRoundTrip(g: seq<Byte>)
    requires |g| == 3
    ensures |Encode(g)| == 4 && DecodeQuad3(Encode(g)) == Some(g)
  {
    var q := Quad3(g[0], g[1], g[2]);
    assert [g[0], g[1], g[2]] == g;
    assert Encode(g) == q by { EncodeStep(g); }
    assert DecodeQuad3(q) == Some(g) by { DecodeQuad3Inverts(g[0], g[1], g[2]); }
  }

  /** Decoding a full group followed by a non-empty encoding concatenates the two decodings. */
  lemma DecodeAppendGroup(q: string, head: seq<Byte>, rest: string, tail: seq<Byte>)
    requires |q| == 4 && |rest| > 0
    requires DecodeQuad3(q) == Some(head) && Decode(rest) == Some(tail)
    ensures Decode(q + rest) == Some(head + tail)
  {
    DecodeStep(q, rest);
  }

  lemma RoundTripStep(bs: seq<Byte>)
    requires |bs| > 3
    requires Decode(Encode(bs[3..])) == Some(bs[3..])
    ensures Decode(Encode(bs)) == Some(bs)
  {
    var g, rest := bs[..3], bs[3..];
    assert bs == g + rest;
    EncodeAppend(g, rest);
    GroupRoundTrip(g);
    DecodeAppendGroup(Encode(g), g, Encode(rest), rest);
  }

  /** Decode is a left inverse of Encode: the bytes are recoverable from their encoding. */
  lemma {:induction false} DecodeEncode(bs: seq<Byte>)
    ensures Decode(Encode(bs)) == Some(bs)
    decreases |bs|
  {
    if |bs| == 0 {
    } else if |bs| == 1 {
      RoundTrip1(bs);
    } else if |bs| == 2 {
      RoundTrip2(bs);
    } else if |bs| == 3 {
      RoundTrip3(bs);
    } else {
      DecodeEncode(bs[3..]);
      RoundTripStep(bs);
    }
  }

  /** An encoding uses only the alphabet and the padding character. */
  lemma {:induction false} EncodedChars(bs: seq<Byte>)
    ensures forall i :: 0 <= i < |Encode(bs)| ==> IsAlphabetChar(Encode(bs)[i]) || Encode(bs)[i] == Pad
    decreases |bs|
  {
    if |bs| > 2 {
      EncodeStep(bs);
      EncodedChars(bs[3..]);
      var q := Quad3(bs[0], bs[1], bs[2]);
      assert forall i :: 0 <= i < 4 ==> IsAlphabetChar(q[i]);
    }
  }

  /** Every started group of three bytes takes four characters. */
  lemma {:induction false} EncodedLength(bs: seq<Byte>)
    ensures |Encode(bs)| == 4 * ((|bs| + 2) / 3)
    decreases |bs|
  {
    if |bs| > 2 {
      EncodedLength(bs[3..]);
      assert |Encode(bs)| == 4 + |Encode(bs[3..])|;
      assert (|bs| + 2) / 3 == (|bs[3..]| + 2) / 3 + 1;
    }
  }

  /** The first group of three bytes encodes on its own. */
  lemma EncodeSplit(bs: seq<Byte>)
    requires |bs| >= 3
    ensures Encode(bs) == Encode(bs[..3]) + Encode(bs[3..])
  {
    var g := bs[..3];
    assert Encode(bs) == Quad3(g[0], g[1], g[2]) + Encode(bs[3..]) by { EncodeStep(bs); }
    assert Encode(g) == Quad3(g[0], g[1], g[2]) by { EncodeStep(g); }
  }

  /** Whole groups of three bytes encode independently of what follows them. */
  lemma {:induction false} EncodeAppend(a: seq<Byte>, b: seq<Byte>)
    requires |a| % 3 == 0
    ensures Encode(a + b) == Encode(a) + Encode(b)
    decreases |a|
  {
    if |a| == 0 {
      assert a + b == b;
    } else {
      var ab := a + b;
      assert ab[..3] == a[..3] && ab[3..] == a[3..] + b;
      assert |a[3..]| % 3 == 0;
      var head, rest, tail := Encode(a[..3]), Encode(a[3..]), Encode(b);
      calc {
        Encode(ab);
        { EncodeSplit(ab); }
        head + Encode(a[3..] + b);
        { EncodeAppend(a[3..], b); }
        head + (rest + tail);
        { assert head + (rest + tail) == (head + rest) + tail; }
        (head + rest) + tail;
        { EncodeSplit(a); }
        Encode(a) + tail;
      }
    }
  }

  /** Three bytes whose sextets are the given values encode as those values' characters. */
  lemma EncodeTriple(b0: Byte, b1: Byte, b2: Byte, v: seq<int>)
    requires v == Sextets(b0, b1, b2)
    ensures Encode([b0, b1, b2]) == [CharOf(v[0]), CharOf(v[1]), CharOf(v[2]), CharOf(v[3])]
  {
    var bs: seq<Byte> := [b0, b1, b2];
    assert Encode(bs) == Quad3(b0, b1, b2) + Encode(bs[3..]);
  }
}
