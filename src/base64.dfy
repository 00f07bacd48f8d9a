/**
 * `base64.b64encode(d).decode()`: the standard alphabet of section 4 of
 * RFC 4648 (`A-Z a-z 0-9 + /`) with `=` padding, and a decoder used as
 * its inverse to show that distinct digests never encode alike.
 */
module Base64 {
  import opened Wrappers

  type byte = b: int | 0 <= b < 256

  /** A 6-bit group. */
  type sextet = v: int | 0 <= v < 64

  /** The character of the alphabet for a 6-bit value. */
  function CharOf(v: sextet): (c: char)
    ensures c != '='
  {
    if v < 26 then ('A' as int + v) as char
    else if v < 52 then ('a' as int + (v - 26)) as char
    else if v < 62 then ('0' as int + (v - 52)) as char
    else if v == 62 then '+'
    else '/'
  }

  /** The 6-bit value of an alphabet character; None for any other character. */
  function ValueOf(c: char): Option<sextet>
  {
    if 'A' <= c <= 'Z' then Some(c as int - 'A' as int)
    else if 'a' <= c <= 'z' then Some(c as int - 'a' as int + 26)
    else if '0' <= c <= '9' then Some(c as int - '0' as int + 52)
    else if c == '+' then Some(62)
    else if c == '/' then Some(63)
    else None
  }

  lemma ValueOfCharOf(v: sextet)
    ensures ValueOf(CharOf(v)) == Some(v)
  {
  }

  /** Three bytes as four characters. */
  function EncodeGroup(b0: byte, b1: byte, b2: byte): string
  {
    [CharOf(b0 / 4), CharOf((b0 % 4) * 16 + b1 / 16), CharOf((b1 % 16) * 4 + b2 / 64), CharOf(b2 % 64)]
  }

  /** `b64encode`: groups of three bytes, the last one or two padded with `=`. */
  function Encode(d: seq<byte>): (s: string)
    ensures |s| == 4 * ((|d| + 2) / 3)
    decreases |d|
  {
    if |d| == 0 then []
    else if |d| == 1 then [CharOf(d[0] / 4), CharOf((d[0] % 4) * 16), '=', '=']
    else if |d| == 2 then [CharOf(d[0] / 4), CharOf((d[0] % 4) * 16 + d[1] / 16), CharOf((d[1] % 16) * 4), '=']
    else EncodeGroup(d[0], d[1], d[2]) + Encode(d[3..])
  }

  /** Four sextets back to three bytes. */
  function DecodeGroup(v0: sextet, v1: sextet, v2: sextet, v3: sextet): seq<byte>
  {
    [v0 * 4 + v1 / 16, (v1 % 16) * 16 + v2 / 4, (v2 % 4) * 64 + v3]
  }

  /** The inverse of `Encode` on well-formed text; None on anything else. */
  function Decode(s: string): Option<seq<byte>>
    decreases |s|
  {
    if |s| == 0 then Some([])
    else if |s| < 4 then None
    else
      var v0, v1 := ValueOf(s[0]), ValueOf(s[1]);
      if v0.None? || v1.None? then None
      else if |s| == 4 && s[2] == '=' && s[3] == '=' then
        Some([v0.value * 4 + v1.value / 16])
      else if |s| == 4 && s[3] == '=' then
        var v2 := ValueOf(s[2]);
        if v2.None? then None
        else Some([v0.value * 4 + v1.value / 16, (v1.value % 16) * 16 + v2.value / 4])
      else
        var v2, v3 := ValueOf(s[2]), ValueOf(s[3]);
        if v2.None? || v3.None? then None
        else match Decode(s[4..])
          case None => None
          case Some(rest) => Some(DecodeGroup(v0.value, v1.value, v2.value, v3.value) + rest)
  }

  lemma GroupRoundTrip(b0: byte, b1: byte, b2: byte)
    ensures DecodeGroup(b0 / 4, (b0 % 4) * 16 + b1 / 16, (b1 % 16) * 4 + b2 / 64, b2 % 64) == [b0, b1, b2]
  {
    var v1 := (b0 % 4) * 16 + b1 / 16;
    var v2 := (b1 % 16) * 4 + b2 / 64;
    assert v1 / 16 == b0 % 4 && v1 % 16 == b1 / 16;
    assert v2 / 4 == b1 % 16 && v2 % 4 == b2 / 64;
  }

  /** Decoding an encoding gives the bytes back. */
  lemma {:induction false} DecodeEncode(d: seq<byte>)
    ensures Decode(Encode(d)) == Some(d)
    decreases |d|
  {
    if |d| == 1 {
      DecodeEncodeShort(d);
    } else if |d| == 2 {
      DecodeEncodeShort(d);
    } else if |d| >= 3 {
      assert d == [d[0], d[1], d[2]] + d[3..];
      DecodeEncode(d[3..]);
      DecodeEncodeGroup(d[0], d[1], d[2], d[3..]);
    }
  }

  lemma DecodeEncodeShort(d: seq<byte>)
    requires |d| == 1 || |d| == 2
    ensures Decode(Encode(d)) == Some(d)
  {
    if |d| == 1 {
      assert d == [d[0]];
      DecodeEncodeOne(d[0]);
    } else {
      assert d == [d[0], d[1]];
      DecodeEncodeTwo(d[0], d[1]);
    }
  }

  lemma DecodeEncodeOne(b0: byte)
    ensures Decode(Encode([b0])) == Some([b0])
  {
    ValueOfCharOf(b0 / 4);
    ValueOfCharOf((b0 % 4) * 16);
  }

  lemma DecodeEncodeTwo(b0: byte, b1: byte)
    ensures Decode(Encode([b0, b1])) == Some([b0, b1])
  {
    var v0, v1, v2 := b0 / 4, (b0 % 4) * 16 + b1 / 16, (b1 % 16) * 4;
    ValueOfCharOf(v0);
    ValueOfCharOf(v1);
    ValueOfCharOf(v2);
    assert v1 / 16 == b0 % 4 && v1 % 16 == b1 / 16;
    assert v2 / 4 == b1 % 16;
    var s := Encode([b0, b1]);
    assert s == [CharOf(v0), CharOf(v1), CharOf(v2), '='];
    assert Decode(s) == Some([v0 * 4 + v1 / 16, (v1 % 16) * 16 + v2 / 4]);
  }

  lemma DecodeEncodeGroup(b0: byte, b1: byte, b2: byte, rest: seq<byte>)
    requires Decode(Encode(rest)) == Some(rest)
    ensures Decode(Encode([b0, b1, b2] + rest)) == Some([b0, b1, b2] + rest)
  {
    var d := [b0, b1, b2] + rest;
    assert d[0] == b0 && d[1] == b1 && d[2] == b2 && d[3..] == rest;
    var v0, v1, v2, v3 := b0 / 4, (b0 % 4) * 16 + b1 / 16, (b1 % 16) * 4 + b2 / 64, b2 % 64;
    ValueOfCharOf(v0);
    ValueOfCharOf(v1);
    ValueOfCharOf(v2);
    ValueOfCharOf(v3);
    GroupRoundTrip(b0, b1, b2);
    var s := Encode(d);
    assert s == EncodeGroup(b0, b1, b2) + Encode(rest);
    assert s[4..] == Encode(rest);
    assert s[2] != '=' && s[3] != '=';
  }

  /** Distinct byte strings have distinct encodings. */
  lemma EncodeInjective(a: seq<byte>, b: seq<byte>)
    ensures Encode(a) == Encode(b) <==> a == b
  {
    if Encode(a) == Encode(b) {
      DecodeEncode(a);
      DecodeEncode(b);
    }
  }

  /** Every encoding character is in the alphabet or is padding. */
  lemma {:induction false} EncodeAlphabet(d: seq<byte>)
    ensures forall i :: 0 <= i < |Encode(d)| ==> Encode(d)[i] == '=' || ValueOf(Encode(d)[i]).Some?
    decreases |d|
  {
    if |d| >= 3 {
      EncodeAlphabet(d[3..]);
      var g := EncodeGroup(d[0], d[1], d[2]);
      ValueOfCharOf(d[0] / 4);
      ValueOfCharOf((d[0] % 4) * 16 + d[1] / 16);
      ValueOfCharOf((d[1] % 16) * 4 + d[2] / 64);
      ValueOfCharOf(d[2] % 64);
      assert forall i :: 0 <= i < 4 ==> ValueOf(g[i]).Some?;
    } else if |d| == 2 {
      ValueOfCharOf(d[0] / 4);
      ValueOfCharOf((d[0] % 4) * 16 + d[1] / 16);
      ValueOfCharOf((d[1] % 16) * 4);
    } else if |d| == 1 {
      ValueOfCharOf(d[0] / 4);
      ValueOfCharOf((d[0] % 4) * 16);
    }
  }
}
