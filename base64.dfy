/**
 * Base 64 encoding as section 4 of RFC 4648 defines it (the alphabet of
 * Table 1, '=' padding), which the upload route uses to turn a file's
 * bytes into a data URL, and the matching decoding.
 */
module Base64 {

  type Byte = x: int | 0 <= x < 256

  /** A 6-bit group. */
  type Index = x: int | 0 <= x < 64

  const PAD: char := '='

  /** Table 1 of RFC 4648: A-Z, a-z, 0-9, '+', '/'. */
  function CharOf(i: Index): (c: char)
    ensures IsAlphabetChar(c)
  {
    if i < 26 then ('A' as int + i) as char
    else if i < 52 then ('a' as int + i - 26) as char
    else if i < 62 then ('0' as int + i - 52) as char
    else if i == 62 then '+'
    else '/'
  }

  predicate IsAlphabetChar(c: char) {
    ('A' <= c <= 'Z') || ('a' <= c <= 'z') || ('0' <= c <= '9') || c == '+' || c == '/'
  }

  /** The 6-bit group a character of the alphabet stands for; the pad
      character, and any character outside the alphabet, counts as 0. */
  function IndexOf(c: char): Index
  {
    if 'A' <= c <= 'Z' then c as int - 'A' as int
    else if 'a' <= c <= 'z' then c as int - 'a' as int + 26
    else if '0' <= c <= '9' then c as int - '0' as int + 52
    else if c == '+' then 62
    else if c == '/' then 63
    else 0
  }

  /** Each character of the alphabet stands for its own position. */
  lemma IndexOfCharOf(i: Index)
    ensures IndexOf(CharOf(i)) == i
  {
  }

  /** Made only of alphabet characters and padding. */
  predicate IsEncodingText(s: string) {
    forall i :: 0 <= i < |s| ==> IsAlphabetChar(s[i]) || s[i] == PAD
  }

  /** `Buffer.from(bytes).toString('base64')`: each three bytes become four
      characters; a final one or two bytes are padded with '=' to four. */
  function Encode(b: seq<Byte>): (r: string)
    ensures |r| == 4 * ((|b| + 2) / 3) && |r| % 4 == 0
    decreases |b|
  {
    WholeGroups((|b| + 2) / 3);
    if |b| < 3 then Final(b)
    else
      GroupCount(|b|);
      Quad(b[0], b[1], b[2]) + Encode(b[3..])
  }

  /** The last group: none for no bytes, and one or two bytes padded with
      '=' to four characters. */
  function Final(b: seq<Byte>): (r: string)
    requires |b| < 3
    ensures |r| == (if b == [] then 0 else 4)
  {
    if |b| == 0 then []
    else if |b| == 1 then [CharOf(b[0] / 4), CharOf((b[0] % 4) * 16), PAD, PAD]
    else [CharOf(b[0] / 4), CharOf((b[0] % 4) * 16 + b[1] / 16), CharOf((b[1] % 16) * 4), PAD]
  }

  /** Whole groups of four characters. */
  lemma WholeGroups(k: int)
    ensures (4 * k) % 4 == 0
  {
  }

  /** Three bytes fewer is one group fewer. */
  lemma GroupCount(n: int)
    requires n >= 3
    ensures (n - 3 + 2) / 3 + 1 == (n + 2) / 3
  {
  }

  /** The four characters standing for three bytes. */
  function Quad(b0: Byte, b1: Byte, b2: Byte): (q: string)
    ensures |q| == 4 && forall i :: 0 <= i < 4 ==> IsAlphabetChar(q[i])
  {
    [CharOf(b0 / 4), CharOf((b0 % 4) * 16 + b1 / 16), CharOf((b1 % 16) * 4 + b2 / 64), CharOf(b2 % 64)]
  }

  /** An encoding is made of alphabet characters and padding only. */
  lemma {:induction false} EncodeIsText(b: seq<Byte>)
    ensures IsEncodingText(Encode(b))
    decreases |b|
  {
    if |b| >= 3 {
      EncodeIsText(b[3..]);
      var g, t := Quad(b[0], b[1], b[2]), Encode(b[3..]);
      assert Encode(b) == g + t;
      forall i | 0 <= i < |g + t|
        ensures IsAlphabetChar((g + t)[i]) || (g + t)[i] == PAD
      {
        if i >= 4 { assert (g + t)[i] == t[i - 4]; }
      }
    }
  }

  /** Reads four characters at a time back into bytes, stopping at the
      group that carries padding; a short tail of fewer than four
      characters reads as nothing. */
  function Decode(s: string): seq<Byte>
    decreases |s|
  {
    if |s| < 4 then []
    else
      var i0: int, i1: int, i2: int, i3: int := IndexOf(s[0]), IndexOf(s[1]), IndexOf(s[2]), IndexOf(s[3]);
      var b0 := i0 * 4 + i1 / 16;
      if s[2] == PAD then [b0]
      else
        var b1 := (i1 % 16) * 16 + i2 / 4;
        if s[3] == PAD then [b0, b1]
        else [b0, b1, (i2 % 4) * 64 + i3] + Decode(s[4..])
  }

  /** The three bytes four 6-bit groups put together. */
  function Bytes(i0: Index, i1: Index, i2: Index, i3: Index): seq<Byte> {
    [i0 * 4 + i1 / 16, (i1 % 16) * 16 + i2 / 4, (i2 % 4) * 64 + i3]
  }

  /** A group without padding decodes to three bytes, ahead of what the
      rest decodes to. */
  lemma DecodeFullGroup(c0: char, c1: char, c2: char, c3: char, rest: string)
    requires c2 != PAD && c3 != PAD
    ensures Decode([c0, c1, c2, c3] + rest) == Bytes(IndexOf(c0), IndexOf(c1), IndexOf(c2), IndexOf(c3)) + Decode(rest)
  {
    var s := [c0, c1, c2, c3] + rest;
    assert s[4..] == rest;
  }

  /** A group with two pad characters decodes to one byte. */
  lemma DecodeOnePadded(c0: char, c1: char)
    ensures Decode([c0, c1, PAD, PAD]) == [IndexOf(c0) * 4 + IndexOf(c1) / 16]
  {
  }

  /** A group with one pad character decodes to two bytes. */
  lemma DecodeTwoPadded(c0: char, c1: char, c2: char)
    requires c2 != PAD
    ensures Decode([c0, c1, c2, PAD]) == [IndexOf(c0) * 4 + IndexOf(c1) / 16, (IndexOf(c1) % 16) * 16 + IndexOf(c2) / 4]
  {
  }

  /** The arithmetic of one group: the four 6-bit groups cut from three
      bytes put the three bytes back together. */
  lemma GroupRoundTrip(b0: Byte, b1: Byte, b2: Byte)
    ensures (b0 / 4) * 4 + ((b0 % 4) * 16 + b1 / 16) / 16 == b0
    ensures (((b0 % 4) * 16 + b1 / 16) % 16) * 16 + ((b1 % 16) * 4 + b2 / 64) / 4 == b1
    ensures (((b1 % 16) * 4 + b2 / 64) % 4) * 64 + b2 % 64 == b2
  {
    assert ((b0 % 4) * 16 + b1 / 16) / 16 == b0 % 4;
    assert ((b0 % 4) * 16 + b1 / 16) % 16 == b1 / 16;
    assert ((b1 % 16) * 4 + b2 / 64) / 4 == b1 % 16;
    assert ((b1 % 16) * 4 + b2 / 64) % 4 == b2 / 64;
  }

  /** One byte padded to a group decodes back to it. */
  lemma DecodeOneByte(b0: Byte)
    ensures Decode(Final([b0])) == [b0]
  {
    var i0, i1 := b0 / 4, (b0 % 4) * 16;
    assert Final([b0]) == [CharOf(i0), CharOf(i1), PAD, PAD];
    DecodeOnePadded(CharOf(i0), CharOf(i1));
    IndexOfCharOf(i0);
    IndexOfCharOf(i1);
    GroupRoundTrip(b0, 0, 0);
  }

  /** Two bytes padded to a group decode back to them. */
  lemma DecodeTwoBytes(b0: Byte, b1: Byte)
    ensures Decode(Final([b0, b1])) == [b0, b1]
  {
    var i0, i1, i2 := b0 / 4, (b0 % 4) * 16 + b1 / 16, (b1 % 16) * 4;
    assert Final([b0, b1]) == [CharOf(i0), CharOf(i1), CharOf(i2), PAD];
    DecodeTwoPadded(CharOf(i0), CharOf(i1), CharOf(i2));
    IndexOfCharOf(i0);
    IndexOfCharOf(i1);
    IndexOfCharOf(i2);
    GroupRoundTrip(b0, b1, 0);
  }

  /** The four characters encoding three bytes decode back to them. */
  lemma DecodeGroup(b0: Byte, b1: Byte, b2: Byte, rest: string)
    ensures Decode(Quad(b0, b1, b2) + rest) == [b0, b1, b2] + Decode(rest)
  {
    var i0, i1, i2, i3 := b0 / 4, (b0 % 4) * 16 + b1 / 16, (b1 % 16) * 4 + b2 / 64, b2 % 64;
    assert Quad(b0, b1, b2) == [CharOf(i0), CharOf(i1), CharOf(i2), CharOf(i3)];
    DecodeFullGroup(CharOf(i0), CharOf(i1), CharOf(i2), CharOf(i3), rest);
    IndexOfCharOf(i0);
    IndexOfCharOf(i1);
    IndexOfCharOf(i2);
    IndexOfCharOf(i3);
    GroupRoundTrip(b0, b1, b2);
  }

  /** One byte: the padded group decodes back to it. */
  lemma DecodeEncodeOne(b: seq<Byte>)
    requires |b| == 1
    ensures Decode(Encode(b)) == b
  {
    assert Encode(b) == Final([b[0]]) && b == [b[0]];
    DecodeOneByte(b[0]);
  }

  /** Two bytes: the padded group decodes back to them. */
  lemma DecodeEncodeTwo(b: seq<Byte>)
    requires |b| == 2
    ensures Decode(Encode(b)) == b
  {
    assert Encode(b) == Final([b[0], b[1]]) && b == [b[0], b[1]];
    DecodeTwoBytes(b[0], b[1]);
  }

  /** A sequence of three or more is its first three ahead of the rest. */
  lemma SplitThree<T>(b: seq<T>)
    requires |b| >= 3
    ensures b == [b[0], b[1], b[2]] + b[3..]
  {
    assert b[..3] == [b[0], b[1], b[2]];
  }

  /** Decoding an encoding gives back the bytes. */
  lemma {:induction false} DecodeEncode(b: seq<Byte>)
    ensures Decode(Encode(b)) == b
    decreases |b|
  {
    if |b| == 1 {
      DecodeEncodeOne(b);
    } else if |b| == 2 {
      DecodeEncodeTwo(b);
    } else if |b| >= 3 {
      var tail := b[3..];
      DecodeEncode(tail);
      assert Encode(b) == Quad(b[0], b[1], b[2]) + Encode(tail);
      DecodeGroup(b[0], b[1], b[2], Encode(tail));
      SplitThree(b);
    }
  }
}
