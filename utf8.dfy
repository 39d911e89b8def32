/**
 * Strict UTF-8, as Python's str.encode("utf-8") and bytes.decode("utf-8") do
 * it: a Dafny char is a Unicode scalar value, and decoding refuses overlong
 * forms, surrogates, code points above U+10FFFF and truncated sequences.
 */
module Utf8 {
  import opened Wire

  predicate IsContinuation(b: byte)
  {
    0x80 <= b < 0xC0
  }

  /** The one to four bytes of one scalar value. */
  function EncodeChar(c: char): (r: bytes)
    ensures 1 <= |r| <= 4
    ensures (|r| == 1) == (c as int < 0x80)
  {
    var cp := c as int;
    if cp < 0x80 then [cp]
    else if cp < 0x800 then [0xC0 + cp / 0x40, 0x80 + cp % 0x40]
    else if cp < 0x10000 then [0xE0 + cp / 0x1000, 0x80 + (cp / 0x40) % 0x40, 0x80 + cp % 0x40]
    else [0xF0 + cp / 0x40000, 0x80 + (cp / 0x1000) % 0x40, 0x80 + (cp / 0x40) % 0x40, 0x80 + cp % 0x40]
  }

  /** The bytes of every character, one after the other. */
  function Encode(s: string): bytes
  {
    Concat(seq(|s|, i requires 0 <= i < |s| => EncodeChar(s[i])))
  }

  function Concat(parts: seq<bytes>): bytes
  {
    if parts == [] then [] else parts[0] + Concat(parts[1..])
  }

  /** Encoding goes character by character. */
  lemma EncodeCons(s: string)
    requires s != []
    ensures Encode(s) == EncodeChar(s[0]) + Encode(s[1..])
  {
    var parts := seq(|s|, i requires 0 <= i < |s| => EncodeChar(s[i]));
    assert parts[1..] == seq(|s| - 1, i requires 0 <= i < |s| - 1 => EncodeChar(s[1..][i]));
  }

  function Cp2(b0: byte, b1: byte): int
  {
    (b0 - 0xC0) * 0x40 + (b1 - 0x80)
  }

  function Cp3(b0: byte, b1: byte, b2: byte): int
  {
    (b0 - 0xE0) * 0x1000 + (b1 - 0x80) * 0x40 + (b2 - 0x80)
  }

  function Cp4(b0: byte, b1: byte, b2: byte, b3: byte): int
  {
    (b0 - 0xF0) * 0x40000 + (b1 - 0x80) * 0x1000 + (b2 - 0x80) * 0x40 + (b3 - 0x80)
  }

  /** The scalar value at the front of s and how many bytes it takes, or None. */
  function DecodeChar(s: bytes): (r: Option<(char, nat)>)
    requires |s| > 0
    ensures r.Some? ==> 1 <= r.value.1 <= |s|
  {
    var b0 := s[0];
    if b0 < 0x80 then Some((b0 as char, 1))
    else if 0xC2 <= b0 < 0xE0 then
      if |s| < 2 || !IsContinuation(s[1]) then None
      else Some((Cp2(b0, s[1]) as char, 2))
    else if 0xE0 <= b0 < 0xF0 then
      if |s| < 3 || !IsContinuation(s[1]) || !IsContinuation(s[2]) then None
      else
        var cp := Cp3(b0, s[1], s[2]);
        if cp < 0x800 || 0xD800 <= cp < 0xE000 then None else Some((cp as char, 3))
    else if 0xF0 <= b0 < 0xF5 then
      if |s| < 4 || !IsContinuation(s[1]) || !IsContinuation(s[2]) || !IsContinuation(s[3]) then None
      else
        var cp := Cp4(b0, s[1], s[2], s[3]);
        if cp < 0x10000 || cp > 0x10FFFF then None else Some((cp as char, 4))
    else None
  }

  /** The string s encodes, or None when s is not well-formed UTF-8. */
  function Decode(s: bytes): Option<string>
    decreases |s|
  {
    if s == [] then Some([])
    else match DecodeChar(s)
      case None => None
      case Some((c, n)) =>
        match Decode(s[n..])
        case None => None
        case Some(t) => Some([c] + t)
  }

  /** Decoding the bytes of one scalar value, whatever follows, gives it back. */
  lemma DecodeEncodeChar(c: char, rest: bytes)
    ensures DecodeChar(EncodeChar(c) + rest) == Some((c, |EncodeChar(c)|))
  {
    var cp := c as int;
    var s := EncodeChar(c) + rest;
    if cp < 0x80 {
    } else if cp < 0x800 {
      assert s[0] == 0xC0 + cp / 0x40 && s[1] == 0x80 + cp % 0x40;
      Split2(cp);
    } else if cp < 0x10000 {
      assert s[0] == 0xE0 + cp / 0x1000;
      assert s[1] == 0x80 + (cp / 0x40) % 0x40;
      assert s[2] == 0x80 + cp % 0x40;
      Split3(cp);
    } else {
      assert s[0] == 0xF0 + cp / 0x40000;
      assert s[1] == 0x80 + (cp / 0x1000) % 0x40;
      assert s[2] == 0x80 + (cp / 0x40) % 0x40;
      assert s[3] == 0x80 + cp % 0x40;
      Split4(cp);
    }
  }

  lemma Split2(cp: int)
    requires 0x80 <= cp < 0x800
    ensures 0xC2 <= 0xC0 + cp / 0x40 < 0xE0
    ensures Cp2(0xC0 + cp / 0x40, 0x80 + cp % 0x40) == cp
  {
  }

  lemma Split3(cp: int)
    requires 0x800 <= cp < 0x10000
    ensures 0xE0 <= 0xE0 + cp / 0x1000 < 0xF0
    ensures Cp3(0xE0 + cp / 0x1000, 0x80 + (cp / 0x40) % 0x40, 0x80 + cp % 0x40) == cp
  {
  }

  lemma Split4(cp: int)
    requires 0x10000 <= cp <= 0x10FFFF
    ensures 0xF0 <= 0xF0 + cp / 0x40000 < 0xF5
    ensures Cp4(0xF0 + cp / 0x40000, 0x80 + (cp / 0x1000) % 0x40, 0x80 + (cp / 0x40) % 0x40, 0x80 + cp % 0x40) == cp
  {
    var q1 := cp / 0x40;
    var q2 := q1 / 0x40;
    assert cp == q1 * 0x40 + cp % 0x40;
    assert q1 == q2 * 0x40 + q1 % 0x40;
    assert q2 == (q2 / 0x40) * 0x40 + q2 % 0x40;
    assert cp / 0x1000 == q2;
    assert cp / 0x40000 == q2 / 0x40;
  }

  /** Splitting off the last base-64 digit. */
  lemma Digit64(x: int, q: int, d: int)
    requires 0 <= d < 0x40 && x == q * 0x40 + d
    ensures x / 0x40 == q && x % 0x40 == d
  {
  }

  /** Whatever DecodeChar accepts is exactly the encoding of what it returns. */
  lemma EncodeDecodeChar(s: bytes)
    requires |s| > 0 && DecodeChar(s).Some?
    ensures EncodeChar(DecodeChar(s).value.0) == s[..DecodeChar(s).value.1]
  {
    var b0 := s[0];
    if b0 < 0x80 {
    } else if b0 < 0xE0 {
      Join2(b0, s[1]);
    } else if b0 < 0xF0 {
      Join3(b0, s[1], s[2]);
    } else {
      Join4(b0, s[1], s[2], s[3]);
    }
  }

  lemma Join2(b0: byte, b1: byte)
    requires 0xC2 <= b0 < 0xE0 && IsContinuation(b1)
    ensures var cp := Cp2(b0, b1); 0x80 <= cp < 0x800 && cp / 0x40 == b0 - 0xC0 && cp % 0x40 == b1 - 0x80
  {
  }

  lemma Join3(b0: byte, b1: byte, b2: byte)
    requires 0xE0 <= b0 < 0xF0 && IsContinuation(b1) && IsContinuation(b2)
    ensures var cp := Cp3(b0, b1, b2);
      cp < 0x10000 && cp / 0x1000 == b0 - 0xE0 && (cp / 0x40) % 0x40 == b1 - 0x80 && cp % 0x40 == b2 - 0x80
  {
    var cp := Cp3(b0, b1, b2);
    var q1 := (b0 - 0xE0) * 0x40 + (b1 - 0x80);
    Digit64(cp, q1, b2 - 0x80);
    Digit64(q1, b0 - 0xE0, b1 - 0x80);
    assert cp / 0x1000 == q1 / 0x40;
  }

  lemma Join4(b0: byte, b1: byte, b2: byte, b3: byte)
    requires 0xF0 <= b0 < 0xF5 && IsContinuation(b1) && IsContinuation(b2) && IsContinuation(b3)
    ensures var cp := Cp4(b0, b1, b2, b3);
      cp / 0x40000 == b0 - 0xF0 && (cp / 0x1000) % 0x40 == b1 - 0x80
      && (cp / 0x40) % 0x40 == b2 - 0x80 && cp % 0x40 == b3 - 0x80
  {
    var cp := Cp4(b0, b1, b2, b3);
    var q1 := (b0 - 0xF0) * 0x1000 + (b1 - 0x80) * 0x40 + (b2 - 0x80);
    Digit64(cp, q1, b3 - 0x80);
    var q2 := (b0 - 0xF0) * 0x40 + (b1 - 0x80);
    Digit64(q1, q2, b2 - 0x80);
    Digit64(q2, b0 - 0xF0, b1 - 0x80);
    assert cp / 0x1000 == q2;
  }

  /** Decoding undoes encoding: every string survives the trip. */
  lemma {:induction false} DecodeEncode(s: string)
    ensures Decode(Encode(s)) == Some(s)
  {
    if s != [] {
      EncodeCons(s);
      var e := EncodeChar(s[0]);
      DecodeEncodeChar(s[0], Encode(s[1..]));
      assert (e + Encode(s[1..]))[|e|..] == Encode(s[1..]);
      DecodeEncode(s[1..]);
      assert [s[0]] + s[1..] == s;
    }
  }

  /** Decoding accepts only well-formed input: re-encoding gives the same bytes. */
  lemma {:induction false} EncodeDecode(b: bytes)
    requires Decode(b).Some?
    ensures Encode(Decode(b).value) == b
    decreases |b|
  {
    if b != [] {
      DecodeStep(b);
      var c := DecodeChar(b).value.0;
      var n := DecodeChar(b).value.1;
      var t := Decode(b[n..]).value;
      EncodeDecodeChar(b);
      EncodeDecode(b[n..]);
      EncodePrepend(c, t, b, n);
    }
  }

  /** Encoding a character in front of a string puts its bytes in front. */
  lemma EncodePrepend(c: char, t: string, b: bytes, n: nat)
    requires n <= |b| && EncodeChar(c) == b[..n] && Encode(t) == b[n..]
    ensures Encode([c] + t) == b
  {
    assert ([c] + t)[1..] == t;
    EncodeCons([c] + t);
    assert b[..n] + b[n..] == b;
  }

  /** One step of decoding: the first scalar value, then the decoding of the rest. */
  lemma DecodeStep(b: bytes)
    requires b != [] && Decode(b).Some?
    ensures DecodeChar(b).Some? && Decode(b[DecodeChar(b).value.1..]).Some?
    ensures Decode(b).value == [DecodeChar(b).value.0] + Decode(b[DecodeChar(b).value.1..]).value
  {
  }

  /** Two strings with the same encoding are the same string. */
  lemma EncodeInjective(s: string, t: string)
    requires Encode(s) == Encode(t)
    ensures s == t
  {
    DecodeEncode(s);
    DecodeEncode(t);
  }

  /** A string encodes to at most four bytes per character. */
  lemma {:induction false} EncodeLength(s: string)
    ensures |s| <= |Encode(s)| <= 4 * |s|
  {
    if s != [] {
      EncodeCons(s);
      EncodeLength(s[1..]);
    }
  }
}
