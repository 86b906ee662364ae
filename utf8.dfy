/**
  Strict UTF-8 decoding, as Python's `bytes.decode()` performs it with its
  default codec and error handler: a byte string decodes exactly when it is a
  concatenation of the well-formed byte sequences of section 4 of RFC 3629,
  and then yields one Unicode scalar value per sequence.
 */
module Utf8 {
  import opened Wrappers

  newtype byte = x: int | 0 <= x < 0x100

  /** A continuation byte, 10xxxxxx. */
  predicate IsTail(b: byte) {
    0x80 <= b <= 0xBF
  }

  /** A Unicode scalar value: a code point that is not a surrogate. */
  predicate IsScalarValue(c: int) {
    0 <= c < 0xD800 || 0xE000 <= c < 0x11_0000
  }

  /**
    The length of the well-formed sequence at the head of `s`
    (the UTF8-1 .. UTF8-4 rules of RFC 3629, section 4), or 0 when the
    head of `s` is not one.
   */
  function LeadLength(s: seq<byte>): (n: nat)
    requires |s| > 0
    ensures n <= 4 && n <= |s|
    ensures n == 1 <==> s[0] < 0x80
  {
    var b0 := s[0];
    if b0 < 0x80 then 1
    else if 0xC2 <= b0 <= 0xDF then
      if |s| >= 2 && IsTail(s[1]) then 2 else 0
    else if 0xE0 <= b0 <= 0xEF then
      var lo: byte := if b0 == 0xE0 then 0xA0 else 0x80;
      var hi: byte := if b0 == 0xED then 0x9F else 0xBF;
      if |s| >= 3 && lo <= s[1] <= hi && IsTail(s[2]) then 3 else 0
    else if 0xF0 <= b0 <= 0xF4 then
      var lo: byte := if b0 == 0xF0 then 0x90 else 0x80;
      var hi: byte := if b0 == 0xF4 then 0x8F else 0xBF;
      if |s| >= 4 && lo <= s[1] <= hi && IsTail(s[2]) && IsTail(s[3]) then 4 else 0
    else 0
  }

  /** The scalar value encoded by the well-formed sequence at the head of `s`. */
  function ScalarAt(s: seq<byte>): (c: int)
    requires |s| > 0 && LeadLength(s) > 0
    ensures IsScalarValue(c)
    ensures LeadLength(s) == 1 ==> c == s[0] as int
  {
    var n := LeadLength(s);
    var b0 := s[0] as int;
    if n == 1 then b0
    else if n == 2 then (b0 - 0xC0) * 0x40 + (s[1] as int - 0x80)
    else if n == 3 then (b0 - 0xE0) * 0x1000 + (s[1] as int - 0x80) * 0x40 + (s[2] as int - 0x80)
    else (b0 - 0xF0) * 0x4_0000 + (s[1] as int - 0x80) * 0x1000 + (s[2] as int - 0x80) * 0x40 + (s[3] as int - 0x80)
  }

  /** `s.decode()`: the decoded text, or None where Python raises UnicodeDecodeError. */
  function Decode(s: seq<byte>): (r: Option<string>)
    ensures r.Some? ==> |r.value| <= |s|
    decreases |s|
  {
    if s == [] then Some("")
    else
      var n := LeadLength(s);
      if n == 0 then None
      else match Decode(s[n..])
        case None => None
        case Some(rest) => Some([ScalarAt(s) as char] + rest)
  }

  predicate Decodable(s: seq<byte>) {
    Decode(s).Some?
  }

  // ---------------------------------------------------------------------
  // Encoding, the inverse of decoding
  // ---------------------------------------------------------------------

  /** The UTF-8 encoding of one scalar value (RFC 3629, section 3). */
  function EncodeScalar(c: int): (s: seq<byte>)
    requires IsScalarValue(c)
    ensures 1 <= |s| <= 4
  {
    if c < 0x80 then [c as byte]
    else if c < 0x800 then
      [(0xC0 + c / 0x40) as byte, (0x80 + c % 0x40) as byte]
    else if c < 0x1_0000 then
      [(0xE0 + c / 0x1000) as byte, (0x80 + c / 0x40 % 0x40) as byte, (0x80 + c % 0x40) as byte]
    else
      [(0xF0 + c / 0x4_0000) as byte, (0x80 + c / 0x1000 % 0x40) as byte,
       (0x80 + c / 0x40 % 0x40) as byte, (0x80 + c % 0x40) as byte]
  }

  /** `t.encode()`: the UTF-8 encoding of a text, one sequence per character. */
  function Encode(t: string): (s: seq<byte>)
    ensures |t| <= |s| <= 4 * |t|
  {
    if t == [] then [] else EncodeScalar(t[0] as int) + Encode(t[1..])
  }

  /** The encoding of a scalar value is one well-formed sequence that decodes back to it. */
  lemma EncodeScalarDecodes(c: int)
    requires IsScalarValue(c)
    ensures LeadLength(EncodeScalar(c)) == |EncodeScalar(c)|
    ensures ScalarAt(EncodeScalar(c)) == c
  {
    var h, d := c / 0x40, c % 0x40;
    var hh, dh := h / 0x40, h % 0x40;
    if c < 0x80 {
    } else if c < 0x800 {
      EncodeTwo(h, d);
      DecodeTwo(h, d);
    } else if c < 0x1_0000 {
      assert c == (hh * 0x40 + dh) * 0x40 + d;
      EncodeThree(hh, dh, d);
      DecodeThree(hh, dh, d);
    } else {
      var hhh, dhh := hh / 0x40, hh % 0x40;
      assert c == ((hhh * 0x40 + dhh) * 0x40 + dh) * 0x40 + d;
      EncodeFour(hhh, dhh, dh, d);
      DecodeFour(hhh, dhh, dh, d);
    }
  }

  lemma DecodeTwo(d0: int, d1: int)
    requires 2 <= d0 < 0x20 && 0 <= d1 < 0x40
    ensures var s := [(0xC0 + d0) as byte, (0x80 + d1) as byte];
      LeadLength(s) == 2 && ScalarAt(s) == d0 * 0x40 + d1
  {
  }

  lemma DecodeThree(d0: int, d1: int, d2: int)
    requires 0 <= d0 < 0x10 && 0 <= d1 < 0x40 && 0 <= d2 < 0x40
    requires d0 == 0 ==> d1 >= 0x20
    requires d0 == 0xD ==> d1 < 0x20
    ensures var s := [(0xE0 + d0) as byte, (0x80 + d1) as byte, (0x80 + d2) as byte];
      LeadLength(s) == 3 && ScalarAt(s) == (d0 * 0x40 + d1) * 0x40 + d2
  {
  }

  lemma DecodeFour(d0: int, d1: int, d2: int, d3: int)
    requires 0 <= d0 < 5 && 0 <= d1 < 0x40 && 0 <= d2 < 0x40 && 0 <= d3 < 0x40
    requires d0 == 0 ==> d1 >= 0x10
    requires d0 == 4 ==> d1 < 0x10
    ensures var s := [(0xF0 + d0) as byte, (0x80 + d1) as byte, (0x80 + d2) as byte, (0x80 + d3) as byte];
      LeadLength(s) == 4 && ScalarAt(s) == ((d0 * 0x40 + d1) * 0x40 + d2) * 0x40 + d3
  {
  }

  /** A well-formed sequence encodes exactly the scalar value it decodes to. */
  lemma ScalarEncodes(s: seq<byte>)
    requires |s| > 0 && LeadLength(s) > 0
    ensures EncodeScalar(ScalarAt(s)) == s[..LeadLength(s)]
  {
    var n := LeadLength(s);
    if n == 2 {
      EncodeTwo(s[0] as int - 0xC0, s[1] as int - 0x80);
    } else if n == 3 {
      EncodeThree(s[0] as int - 0xE0, s[1] as int - 0x80, s[2] as int - 0x80);
    } else if n == 4 {
      EncodeFour(s[0] as int - 0xF0, s[1] as int - 0x80, s[2] as int - 0x80, s[3] as int - 0x80);
    }
  }

  lemma EncodeTwo(d0: int, d1: int)
    requires 2 <= d0 < 0x20 && 0 <= d1 < 0x40
    ensures EncodeScalar(d0 * 0x40 + d1) == [(0xC0 + d0) as byte, (0x80 + d1) as byte]
  {
    var c := d0 * 0x40 + d1;
    assert c / 0x40 == d0 && c % 0x40 == d1;
  }

  lemma EncodeThree(d0: int, d1: int, d2: int)
    requires 0 <= d0 < 0x10 && 0 <= d1 < 0x40 && 0 <= d2 < 0x40
    requires d0 == 0 ==> d1 >= 0x20
    requires d0 == 0xD ==> d1 < 0x20
    ensures EncodeScalar((d0 * 0x40 + d1) * 0x40 + d2) ==
      [(0xE0 + d0) as byte, (0x80 + d1) as byte, (0x80 + d2) as byte]
  {
    var c := (d0 * 0x40 + d1) * 0x40 + d2;
    assert c / 0x40 == d0 * 0x40 + d1 && c % 0x40 == d2;
    assert c / 0x1000 == d0 && c / 0x40 % 0x40 == d1;
  }

  lemma EncodeFour(d0: int, d1: int, d2: int, d3: int)
    requires 0 <= d0 < 5 && 0 <= d1 < 0x40 && 0 <= d2 < 0x40 && 0 <= d3 < 0x40
    requires d0 == 0 ==> d1 >= 0x10
    requires d0 == 4 ==> d1 < 0x10
    ensures EncodeScalar(((d0 * 0x40 + d1) * 0x40 + d2) * 0x40 + d3) ==
      [(0xF0 + d0) as byte, (0x80 + d1) as byte, (0x80 + d2) as byte, (0x80 + d3) as byte]
  {
    var c := ((d0 * 0x40 + d1) * 0x40 + d2) * 0x40 + d3;
    assert c / 0x40 == (d0 * 0x40 + d1) * 0x40 + d2 && c % 0x40 == d3;
    assert c / 0x1000 == d0 * 0x40 + d1 && c / 0x40 % 0x40 == d2;
    assert c / 0x4_0000 == d0 && c / 0x1000 % 0x40 == d1;
  }

  /** What follows a well-formed sequence does not change how that sequence is read. */
  lemma LeadOfPrefix(s: seq<byte>, t: seq<byte>)
    requires |s| > 0 && LeadLength(s) == |s|
    ensures LeadLength(s + t) == |s| && ScalarAt(s + t) == ScalarAt(s)
  {
    assert forall i | 0 <= i < |s| :: (s + t)[i] == s[i];
  }

  /** Decoding undoes encoding: every text survives the round trip. */
  lemma {:induction false} DecodeEncode(t: string)
    ensures Decode(Encode(t)) == Some(t)
  {
    if t != [] {
      var c := t[0] as int;
      var e, rest := EncodeScalar(c), Encode(t[1..]);
      EncodeScalarDecodes(c);
      LeadOfPrefix(e, rest);
      assert (e + rest)[|e|..] == rest;
      DecodeEncode(t[1..]);
      assert [c as char] + t[1..] == t;
    }
  }

  /** Encoding undoes decoding: a decodable byte string is the encoding of its text. */
  lemma {:induction false} EncodeDecode(s: seq<byte>)
    requires Decodable(s)
    ensures Encode(Decode(s).value) == s
    decreases |s|
  {
    if s != [] {
      var n := LeadLength(s);
      var c := ScalarAt(s);
      var rest := Decode(s[n..]).value;
      var t := [c as char] + rest;
      assert Decode(s) == Some(t);
      assert t[0] as int == c && t[1..] == rest;
      calc {
        Encode(t);
        EncodeScalar(c) + Encode(rest);
        { ScalarEncodes(s); EncodeDecode(s[n..]); }
        s[..n] + s[n..];
        s;
      }
    }
  }

  /** Bytes below 0x80 decode one-for-one to the characters with the same code. */
  lemma {:induction false} AsciiDecodes(s: seq<byte>)
    requires forall i | 0 <= i < |s| :: s[i] < 0x80
    ensures Decodable(s) && |Decode(s).value| == |s|
    ensures forall i | 0 <= i < |s| :: Decode(s).value[i] == s[i] as int as char
  {
    if s != [] {
      AsciiDecodes(s[1..]);
      assert LeadLength(s) == 1 && s[1..] == s[LeadLength(s)..];
    }
  }

  /** Bytes 0xC0, 0xC1 and 0xF5 to 0xFF never appear in UTF-8 (RFC 3629, section 1). */
  lemma {:induction false} ForbiddenByteRejected(s: seq<byte>, i: nat)
    requires i < |s| && (s[i] == 0xC0 || s[i] == 0xC1 || s[i] >= 0xF5)
    ensures !Decodable(s)
    decreases |s|
  {
    var n := LeadLength(s);
    if n > 0 && i >= n {
      ForbiddenByteRejected(s[n..], i - n);
    }
  }
}
