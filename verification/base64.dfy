/** Base 64 encoding as defined in section 4 of RFC 4648 (alphabet `A-Z a-z 0-9 + /`,
    `=` padding), over byte sequences. Decoding is the canonical one: the text must be a
    whole number of 4-character groups, padding may only close the last group, and the
    bits a padded group leaves unused must be zero. */
module Base64 {
  import opened Wrappers

  type byte = x: int | 0 <= x < 256

  /** The value of one base 64 digit. */
  type Sextet = x: int | 0 <= x < 64

  const Pad: char := '='

  /** The digit for a 6-bit value (Table 1 of RFC 4648). */
  function CharOf(v: Sextet): (c: char)
    ensures c != Pad
  {
    if v < 26 then ('A' as int + v) as char
    else if v < 52 then ('a' as int + (v - 26)) as char
    else if v < 62 then ('0' as int + (v - 52)) as char
    else if v == 62 then '+'
    else '/'
  }

  /** The 6-bit value of a digit, `None` for any character outside the alphabet. */
  function IndexOf(c: char): (r: Option<Sextet>)
    ensures r.Some? ==> CharOf(r.value) == c
  {
    if 'A' <= c <= 'Z' then Some(c as int - 'A' as int)
    else if 'a' <= c <= 'z' then Some(c as int - 'a' as int + 26)
    else if '0' <= c <= '9' then Some(c as int - '0' as int + 52)
    else if c == '+' then Some(62)
    else if c == '/' then Some(63)
    else None
  }

  /** Every 6-bit value has exactly one digit, and reading that digit gives the value back. */
  lemma IndexOfCharOf(v: Sextet)
    ensures IndexOf(CharOf(v)) == Some(v)
  {
  }

  predicate IsDigit(c: char) {
    IndexOf(c).Some?
  }

  /** The number of `=` characters that close the encoding of `n` bytes. */
  function Padding(n: nat): nat {
    (3 - n % 3) % 3
  }

  /** Digits of three bytes: 24 bits cut into four 6-bit groups, most significant first. */
  function EncodeGroup(b0: byte, b1: byte, b2: byte): string {
    [CharOf(b0 / 4), CharOf((b0 % 4) * 16 + b1 / 16), CharOf((b1 % 16) * 4 + b2 / 64), CharOf(b2 % 64)]
  }

  /** `base64.b64encode(b)`, read as text. */
  function Encode(b: seq<byte>): (s: string)
    ensures |s| == (|b| + 2) / 3 * 4
  {
    if |b| == 0 then ""
    else if |b| == 1 then [CharOf(b[0] / 4), CharOf((b[0] % 4) * 16), Pad, Pad]
    else if |b| == 2 then [CharOf(b[0] / 4), CharOf((b[0] % 4) * 16 + b[1] / 16), CharOf((b[1] % 16) * 4), Pad]
    else EncodeGroup(b[0], b[1], b[2]) + Encode(b[3..])
  }

  /** `s` is alphabet digits followed by exactly `pads` pad characters. */
  predicate DigitsThenPads(s: string, pads: nat) {
    && pads <= |s|
    && (forall i :: 0 <= i < |s| - pads ==> IsDigit(s[i]))
    && (forall i :: |s| - pads <= i < |s| ==> s[i] == Pad)
  }

  /** An encoding is digits followed by exactly `Padding(|b|)` pad characters. */
  lemma {:induction false} EncodeShape(b: seq<byte>)
    ensures DigitsThenPads(Encode(b), Padding(|b|))
    decreases |b|
  {
    if |b| >= 3 {
      EncodeShape(b[3..]);
      EncodeShapeStep(b);
    } else if |b| > 0 {
      EncodeShapeTail(b);
    }
  }

  lemma EncodeShapeStep(b: seq<byte>)
    requires |b| >= 3 && DigitsThenPads(Encode(b[3..]), Padding(|b[3..]|))
    ensures DigitsThenPads(Encode(b), Padding(|b|))
  {
    var g := EncodeGroup(b[0], b[1], b[2]);
    GroupDigits(b[0], b[1], b[2]);
    assert Encode(b) == g + Encode(b[3..]);
    PaddingStep(|b|);
    ShapeAppend(g, Encode(b[3..]), Padding(|b|));
  }

  /** The four characters of a full group are alphabet digits. */
  lemma GroupDigits(b0: byte, b1: byte, b2: byte)
    ensures var g := EncodeGroup(b0, b1, b2);
      |g| == 4 && IsDigit(g[0]) && IsDigit(g[1]) && IsDigit(g[2]) && IsDigit(g[3])
  {
    IndexOfCharOf(b0 / 4);
    IndexOfCharOf((b0 % 4) * 16 + b1 / 16);
    IndexOfCharOf((b1 % 16) * 4 + b2 / 64);
    IndexOfCharOf(b2 % 64);
  }

  lemma EncodeShapeTail(b: seq<byte>)
    requires 1 <= |b| <= 2
    ensures DigitsThenPads(Encode(b), Padding(|b|))
  {
    if |b| == 2 {
      TailShape(b[0], (b[0] % 4) * 16 + b[1] / 16, (b[1] % 16) * 4, 1);
      assert Padding(2) == 1;
      assert Encode(b) == [CharOf(b[0] / 4), CharOf((b[0] % 4) * 16 + b[1] / 16), CharOf((b[1] % 16) * 4), Pad];
    } else {
      TailShape(b[0], (b[0] % 4) * 16, 0, 2);
      assert Padding(1) == 2;
      assert Encode(b) == [CharOf(b[0] / 4), CharOf((b[0] % 4) * 16), Pad, Pad];
    }
  }

  lemma PaddingStep(n: nat)
    requires n >= 3
    ensures Padding(n) == Padding(n - 3)
  {
    assert n % 3 == (n - 3) % 3;
  }

  /** The last group of a one- or two-byte tail: digits then the pads. */
  lemma TailShape(b0: byte, c1: Sextet, c2: Sextet, pads: nat)
    requires pads == 1 || pads == 2
    ensures pads == 1 ==> DigitsThenPads([CharOf(b0 / 4), CharOf(c1), CharOf(c2), Pad], 1)
    ensures pads == 2 ==> DigitsThenPads([CharOf(b0 / 4), CharOf(c1), Pad, Pad], 2)
  {
    IndexOfCharOf(b0 / 4);
    IndexOfCharOf(c1);
    IndexOfCharOf(c2);
  }

  /** Four digits in front of digits-then-pads keep the shape, with the same pads. */
  lemma ShapeAppend(g: string, rest: string, pads: nat)
    requires |g| == 4 && IsDigit(g[0]) && IsDigit(g[1]) && IsDigit(g[2]) && IsDigit(g[3])
    requires DigitsThenPads(rest, pads)
    ensures DigitsThenPads(g + rest, pads)
  {
    var s := g + rest;
    forall i | 0 <= i < |s| - pads
      ensures IsDigit(s[i])
    {
      if i >= 4 {
        assert s[i] == rest[i - 4];
      } else {
        assert s[i] == g[i];
      }
    }
    forall i | |s| - pads <= i < |s|
      ensures s[i] == Pad
    {
      assert s[i] == rest[i - 4];
    }
  }

  /** Bytes of four digits without padding. */
  function DecodeGroup(s: string): (r: Option<seq<byte>>)
    requires |s| == 4
    ensures r.Some? ==> |r.value| == 3
  {
    var d0, d1, d2, d3 := IndexOf(s[0]), IndexOf(s[1]), IndexOf(s[2]), IndexOf(s[3]);
    if d0.None? || d1.None? || d2.None? || d3.None? then None
    else
      var c0, c1, c2, c3 := d0.value, d1.value, d2.value, d3.value;
      Some([c0 * 4 + c1 / 16, (c1 % 16) * 16 + c2 / 4, (c2 % 4) * 64 + c3])
  }

  /** Bytes of the last group, which may end in one or two `=`. */
  function DecodeLast(s: string): (r: Option<seq<byte>>)
    requires |s| == 4
    ensures r.Some? ==> 1 <= |r.value| <= 3
  {
    if s[2] == Pad && s[3] == Pad then
      var d0, d1 := IndexOf(s[0]), IndexOf(s[1]);
      if d0.None? || d1.None? || d1.value % 16 != 0 then None
      else Some([d0.value * 4 + d1.value / 16])
    else if s[3] == Pad then
      var d0, d1, d2 := IndexOf(s[0]), IndexOf(s[1]), IndexOf(s[2]);
      if d0.None? || d1.None? || d2.None? || d2.value % 4 != 0 then None
      else Some([d0.value * 4 + d1.value / 16, (d1.value % 16) * 16 + d2.value / 4])
    else DecodeGroup(s)
  }

  /** Canonical `base64.b64decode(s)`; `None` where Python raises `binascii.Error`. */
  function Decode(s: string): (r: Option<seq<byte>>)
    decreases |s|
  {
    if |s| == 0 then Some([])
    else if |s| % 4 != 0 then None
    else if |s| == 4 then DecodeLast(s)
    else
      match DecodeGroup(s[..4])
      case None => None
      case Some(head) =>
        match Decode(s[4..])
        case None => None
        case Some(tail) => Some(head + tail)
  }

  // ---------------------------------------------------------------------------
  // Round trips
  // ---------------------------------------------------------------------------

  lemma DivMod(q: int, r: int, k: int)
    requires k == 4 || k == 16 || k == 64
    requires 0 <= r < k
    ensures (q * k + r) / k == q && (q * k + r) % k == r
  {
    if k == 4 {
      assert q * k + r == q * 4 + r;
    } else if k == 16 {
      assert q * k + r == q * 16 + r;
    } else {
      assert q * k + r == q * 64 + r;
    }
  }

  /** The digits of three bytes decode to those bytes. */
  lemma GroupRoundTrip(b0: byte, b1: byte, b2: byte)
    ensures DecodeGroup(EncodeGroup(b0, b1, b2)) == Some([b0, b1, b2])
  {
    var c0, c1, c2, c3 := b0 / 4, (b0 % 4) * 16 + b1 / 16, (b1 % 16) * 4 + b2 / 64, b2 % 64;
    IndexOfCharOf(c0);
    IndexOfCharOf(c1);
    IndexOfCharOf(c2);
    IndexOfCharOf(c3);
    DivMod(b0 % 4, b1 / 16, 16);
    DivMod(b1 % 16, b2 / 64, 4);
    assert c0 * 4 + c1 / 16 == b0;
    assert (c1 % 16) * 16 + c2 / 4 == b1;
    assert (c2 % 4) * 64 + c3 == b2;
  }

  lemma OneByteRoundTrip(b: seq<byte>)
    requires |b| == 1
    ensures Decode(Encode(b)) == Some(b)
  {
    var c0, c1 := b[0] / 4, (b[0] % 4) * 16;
    var s := Encode(b);
    assert s == [CharOf(c0), CharOf(c1), Pad, Pad];
    DecodeLastOne(b[0]);
    assert [b[0]] == b;
    assert Decode(s) == DecodeLast(s);
  }

  /** The two digits of a one-byte tail decode to that byte. */
  lemma DecodeLastOne(b0: byte)
    ensures DecodeLast([CharOf(b0 / 4), CharOf((b0 % 4) * 16), Pad, Pad]) == Some([b0])
  {
    IndexOfCharOf(b0 / 4);
    IndexOfCharOf((b0 % 4) * 16);
    DivMod(b0 % 4, 0, 16);
  }

  /** The digits a two-byte tail is written with, and the bytes they decode to. */
  lemma TwoByteArith(b0: byte, b1: byte)
    ensures var c1 := (b0 % 4) * 16 + b1 / 16; var c2 := (b1 % 16) * 4;
              && c2 % 4 == 0
              && (b0 / 4) * 4 + c1 / 16 == b0
              && (c1 % 16) * 16 + c2 / 4 == b1
  {
    DivMod(b0 % 4, b1 / 16, 16);
    DivMod(b1 % 16, 0, 4);
  }

  lemma DecodeLastTwo(c0: Sextet, c1: Sextet, c2: Sextet)
    requires c2 % 4 == 0
    ensures DecodeLast([CharOf(c0), CharOf(c1), CharOf(c2), Pad]) == Some([c0 * 4 + c1 / 16, (c1 % 16) * 16 + c2 / 4])
  {
    IndexOfCharOf(c0);
    IndexOfCharOf(c1);
    IndexOfCharOf(c2);
  }

  lemma TwoByteRoundTrip(b: seq<byte>)
    requires |b| == 2
    ensures Decode(Encode(b)) == Some(b)
  {
    var c0, c1, c2 := b[0] / 4, (b[0] % 4) * 16 + b[1] / 16, (b[1] % 16) * 4;
    var s := Encode(b);
    assert s == [CharOf(c0), CharOf(c1), CharOf(c2), Pad];
    var bytes := TwoBytes(b[0], b[1]);
    assert bytes == b;
    assert Decode(s) == DecodeLast(s);
  }

  /** The bytes the digits of a two-byte tail decode to are those two bytes. */
  lemma TwoBytes(b0: byte, b1: byte) returns (r: seq<byte>)
    ensures r == [b0, b1]
    ensures var c0, c1, c2 := b0 / 4, (b0 % 4) * 16 + b1 / 16, (b1 % 16) * 4;
              DecodeLast([CharOf(c0), CharOf(c1), CharOf(c2), Pad]) == Some(r)
  {
    var c0, c1, c2 := b0 / 4, (b0 % 4) * 16 + b1 / 16, (b1 % 16) * 4;
    TwoByteArith(b0, b1);
    DecodeLastTwo(c0, c1, c2);
    r := [c0 * 4 + c1 / 16, (c1 % 16) * 16 + c2 / 4];
  }

  /** A text of two or more groups decodes group by group. */
  lemma DecodeAppend(g: string, rest: string)
    requires |g| == 4 && |rest| >= 4
    ensures Decode(g + rest) ==
              if DecodeGroup(g).Some? && Decode(rest).Some?
              then Some(DecodeGroup(g).value + Decode(rest).value)
              else None
  {
    var s := g + rest;
    assert s[..4] == g && s[4..] == rest;
    if |rest| % 4 != 0 {
      assert |s| % 4 != 0;
      assert Decode(rest).None?;
    } else {
      assert |s| % 4 == 0 && |s| > 4;
    }
  }

  /** Decoding an encoding gives the bytes back: `b64decode(b64encode(b)) == b`. */
  lemma {:induction false} DecodeEncode(b: seq<byte>)
    ensures Decode(Encode(b)) == Some(b)
    decreases |b|
  {
    if |b| == 1 {
      OneByteRoundTrip(b);
    } else if |b| == 2 {
      TwoByteRoundTrip(b);
    } else if |b| >= 3 {
      var g := EncodeGroup(b[0], b[1], b[2]);
      var rest := Encode(b[3..]);
      assert Encode(b) == g + rest;
      GroupRoundTrip(b[0], b[1], b[2]);
      assert [b[0], b[1], b[2]] == b[..3];
      if |b| == 3 {
        assert Encode(b) == g;
        assert DecodeLast(g) == DecodeGroup(g);
        assert b == b[..3];
      } else {
        DecodeEncode(b[3..]);
        DecodeAppend(g, rest);
        assert b == b[..3] + b[3..];
      }
    }
  }

  /** Four digits encode back to themselves once decoded. */
  lemma GroupCanonical(s: string)
    requires |s| == 4 && DecodeGroup(s).Some?
    ensures var b := DecodeGroup(s).value; EncodeGroup(b[0], b[1], b[2]) == s
  {
    var c0: int, c1: int, c2: int, c3: int := IndexOf(s[0]).value, IndexOf(s[1]).value, IndexOf(s[2]).value, IndexOf(s[3]).value;
    var b0: int, b1: int, b2: int := c0 * 4 + c1 / 16, (c1 % 16) * 16 + c2 / 4, (c2 % 4) * 64 + c3;
    DivMod(c0, c1 / 16, 4);
    DivMod(c1 % 16, c2 / 4, 16);
    DivMod(c2 % 4, c3, 64);
    assert b0 / 4 == c0;
    assert (b0 % 4) * 16 + b1 / 16 == c1;
    assert (b1 % 16) * 4 + b2 / 64 == c2;
    assert b2 % 64 == c3;
  }

  /** Decoding accepts only canonical text: whatever decodes is the encoding of its result. */
  lemma {:induction false} EncodeDecode(s: string)
    requires Decode(s).Some?
    ensures Encode(Decode(s).value) == s
    decreases |s|
  {
    if |s| == 4 {
      var b := Decode(s).value;
      if s[2] == Pad && s[3] == Pad {
        var c0, c1 := IndexOf(s[0]).value, IndexOf(s[1]).value;
        DivMod(c0, c1 / 16, 4);
        assert b[0] / 4 == c0;
        assert (b[0] % 4) * 16 == c1;
      } else if s[3] == Pad {
        var c0, c1, c2 := IndexOf(s[0]).value, IndexOf(s[1]).value, IndexOf(s[2]).value;
        DivMod(c0, c1 / 16, 4);
        DivMod(c1 % 16, c2 / 4, 16);
        assert b[0] / 4 == c0;
        assert (b[0] % 4) * 16 + b[1] / 16 == c1;
        assert (b[1] % 16) * 4 == c2;
      } else {
        GroupCanonical(s);
        assert b[3..] == [];
      }
    } else if |s| > 4 {
      var head := DecodeGroup(s[..4]).value;
      var tail := Decode(s[4..]).value;
      EncodeDecode(s[4..]);
      GroupCanonical(s[..4]);
      var b := head + tail;
      assert b[..3] == head && b[3..] == tail;
      assert s == s[..4] + s[4..];
    }
  }

  /** Decoding is the exact inverse of encoding. */
  lemma DecodeIffEncode(s: string, b: seq<byte>)
    ensures Decode(s) == Some(b) <==> s == Encode(b)
  {
    if Decode(s) == Some(b) {
      EncodeDecode(s);
    }
    if s == Encode(b) {
      DecodeEncode(b);
    }
  }
}
