/** UTF-8 as used by `String::from_utf8_lossy` on the bytes of a byte-string
    literal. Encoding and strict decoding are written out; what the lossy
    decoder substitutes for ill-formed bytes is left to the caller. */
module Utf8 {
  import opened Diagnostics

  newtype uint8 = x: int | 0 <= x < 0x100

  /** The integers that are Unicode scalar values, i.e. the values of `char`. */
  predicate IsScalar(n: int)
  {
    0 <= n < 0xD800 || 0xE000 <= n < 0x11_0000
  }

  predicate IsContinuation(b: uint8)
  {
    0x80 <= b < 0xC0
  }

  /** The shortest UTF-8 sequence of one scalar value. */
  function EncodeChar(c: char): (r: seq<uint8>)
    ensures 1 <= |r| <= 4
  {
    var n := c as int;
    if n < 0x80 then
      [n as uint8]
    else if n < 0x800 then
      [(0xC0 + n / 64) as uint8, (0x80 + n % 64) as uint8]
    else if n < 0x1_0000 then
      [(0xE0 + n / 4096) as uint8, (0x80 + (n / 64) % 64) as uint8, (0x80 + n % 64) as uint8]
    else
      [(0xF0 + n / 262144) as uint8, (0x80 + (n / 4096) % 64) as uint8,
       (0x80 + (n / 64) % 64) as uint8, (0x80 + n % 64) as uint8]
  }

  function Encode(s: string): (r: seq<uint8>)
    ensures |s| <= |r| <= 4 * |s|
  {
    if s == [] then [] else EncodeChar(s[0]) + Encode(s[1..])
  }

  /** The scalar value at the front of `b` and the number of bytes it takes, or
      None when `b` does not start with a well-formed sequence (overlong forms,
      surrogates and values past U+10FFFF are ill-formed). */
  function DecodeFirst(b: seq<uint8>): (r: Option<(char, nat)>)
    ensures r.Some? ==> 1 <= r.value.1 <= |b|
  {
    if |b| == 0 then None
    else
      var b0 := b[0] as int;
      if b0 < 0x80 then
        Some((b0 as char, 1))
      else if 0xC2 <= b0 < 0xE0 then
        if |b| >= 2 && IsContinuation(b[1]) then
          Some((((b0 - 0xC0) * 64 + (b[1] as int - 0x80)) as char, 2))
        else None
      else if 0xE0 <= b0 < 0xF0 then
        if |b| >= 3 && IsContinuation(b[1]) && IsContinuation(b[2]) then
          var n := (b0 - 0xE0) * 4096 + (b[1] as int - 0x80) * 64 + (b[2] as int - 0x80);
          if 0x800 <= n && IsScalar(n) then Some((n as char, 3)) else None
        else None
      else if 0xF0 <= b0 < 0xF5 then
        if |b| >= 4 && IsContinuation(b[1]) && IsContinuation(b[2]) && IsContinuation(b[3]) then
          var n := (b0 - 0xF0) * 262144 + (b[1] as int - 0x80) * 4096
                   + (b[2] as int - 0x80) * 64 + (b[3] as int - 0x80);
          if 0x1_0000 <= n && IsScalar(n) then Some((n as char, 4)) else None
        else None
      else None
  }

  /** Strict decoding: the string, or None when any part of `b` is ill-formed. */
  function Decode(b: seq<uint8>): Option<string>
    decreases |b|
  {
    if |b| == 0 then Some([])
    else
      match DecodeFirst(b)
      case None => None
      case Some((c, k)) =>
        match Decode(b[k..])
        case None => None
        case Some(s) => Some([c] + s)
  }

  /** `String::from_utf8_lossy`: well-formed bytes decode exactly; for anything
      else the replacement text is produced by `fallback`. */
  function FromUtf8Lossy(b: seq<uint8>, fallback: seq<uint8> -> string): string
  {
    match Decode(b)
    case Some(s) => s
    case None => fallback(b)
  }

  lemma DivMod64(q: int, r: int)
    requires 0 <= r < 64
    ensures (q * 64 + r) / 64 == q && (q * 64 + r) % 64 == r
  {
  }

  /** Splitting a value below 2^24 into base-64 digits and joining them back. */
  lemma Digits(n: int)
    requires 0 <= n
    ensures n == (n / 262144) * 262144 + ((n / 4096) % 64) * 4096 + ((n / 64) % 64) * 64 + n % 64
    ensures n / 4096 == (n / 64) / 64 && n / 262144 == (n / 4096) / 64
  {
    var d0 := n % 64;
    var q0 := n / 64;
    assert n == q0 * 64 + d0;
    var d1 := q0 % 64;
    var q1 := q0 / 64;
    assert q0 == q1 * 64 + d1;
    var d2 := q1 % 64;
    var q2 := q1 / 64;
    assert q1 == q2 * 64 + d2;
    assert n == q1 * 4096 + d1 * 64 + d0;
    DivMod64(q1, d1);
    assert q1 * 4096 + d1 * 64 + d0 == (q1 * 64 + d1) * 64 + d0;
    assert n / 4096 == q1 by {
      assert n == q1 * 4096 + (d1 * 64 + d0);
      assert 0 <= d1 * 64 + d0 < 4096;
    }
    assert n == q2 * 262144 + d2 * 4096 + d1 * 64 + d0;
    assert n / 262144 == q2 by {
      assert n == q2 * 262144 + (d2 * 4096 + d1 * 64 + d0);
      assert 0 <= d2 * 4096 + d1 * 64 + d0 < 262144;
    }
  }

  lemma DecodeFirstEncodeChar(c: char, rest: seq<uint8>)
    ensures DecodeFirst(EncodeChar(c) + rest) == Some((c, |EncodeChar(c)|))
  {
    var n := c as int;
    if n < 0x80 {
    } else if n < 0x800 {
      DecodeFirstTwo(c, rest);
    } else if n < 0x1_0000 {
      DecodeFirstThree(c, rest);
    } else {
      DecodeFirstFour(c, rest);
    }
  }

  lemma DecodeFirstTwo(c: char, rest: seq<uint8>)
    requires 0x80 <= c as int < 0x800
    ensures DecodeFirst(EncodeChar(c) + rest) == Some((c, 2))
  {
    var n := c as int;
    var b := EncodeChar(c) + rest;
    DivMod64(n / 64, n % 64);
    assert b[0] as int - 0xC0 == n / 64;
    assert b[1] as int - 0x80 == n % 64;
    assert (b[0] as int - 0xC0) * 64 + (b[1] as int - 0x80) == n;
  }

  lemma DecodeFirstThree(c: char, rest: seq<uint8>)
    requires 0x800 <= c as int < 0x1_0000
    ensures DecodeFirst(EncodeChar(c) + rest) == Some((c, 3))
  {
    var n := c as int;
    var b := EncodeChar(c) + rest;
    Digits(n);
    assert b[0] as int - 0xE0 == n / 4096;
    assert b[1] as int - 0x80 == (n / 64) % 64;
    assert b[2] as int - 0x80 == n % 64;
    assert (b[0] as int - 0xE0) * 4096 + (b[1] as int - 0x80) * 64 + (b[2] as int - 0x80) == n;
  }

  lemma DecodeFirstFour(c: char, rest: seq<uint8>)
    requires 0x1_0000 <= c as int
    ensures DecodeFirst(EncodeChar(c) + rest) == Some((c, 4))
  {
    var n := c as int;
    var b := EncodeChar(c) + rest;
    Digits(n);
    assert b[0] as int - 0xF0 == n / 262144;
    assert b[1] as int - 0x80 == (n / 4096) % 64;
    assert b[2] as int - 0x80 == (n / 64) % 64;
    assert b[3] as int - 0x80 == n % 64;
  }

  /** Decoding inverts encoding. */
  lemma {:induction false} DecodeEncode(s: string)
    ensures Decode(Encode(s)) == Some(s)
  {
    if s != [] {
      var e := EncodeChar(s[0]);
      var tail := Encode(s[1..]);
      DecodeFirstEncodeChar(s[0], tail);
      assert (e + tail)[|e|..] == tail;
      DecodeEncode(s[1..]);
      assert [s[0]] + s[1..] == s;
    }
  }

  lemma EncodeCharDecodeFirst(b: seq<uint8>)
    requires DecodeFirst(b).Some?
    ensures EncodeChar(DecodeFirst(b).value.0) == b[..DecodeFirst(b).value.1]
  {
    var b0 := b[0] as int;
    if b0 < 0x80 {
    } else if 0xC2 <= b0 < 0xE0 {
      DivMod64(b0 - 0xC0, b[1] as int - 0x80);
    } else if 0xE0 <= b0 < 0xF0 {
      EncodeCharThree(b);
    } else {
      EncodeCharFour(b);
    }
  }

  lemma EncodeCharThree(b: seq<uint8>)
    requires DecodeFirst(b).Some? && 0xE0 <= b[0] < 0xF0
    ensures EncodeChar(DecodeFirst(b).value.0) == b[..3]
  {
    var n := DecodeFirst(b).value.0 as int;
    var b0 := b[0] as int;
    var d2, d1 := b[2] as int - 0x80, b[1] as int - 0x80;
    DivMod64((b0 - 0xE0) * 64 + d1, d2);
    DivMod64(b0 - 0xE0, d1);
    assert n == ((b0 - 0xE0) * 64 + d1) * 64 + d2;
    assert n / 64 == (b0 - 0xE0) * 64 + d1;
    Digits(n);
  }

  lemma EncodeCharFour(b: seq<uint8>)
    requires DecodeFirst(b).Some? && 0xF0 <= b[0]
    ensures EncodeChar(DecodeFirst(b).value.0) == b[..4]
  {
    var n := DecodeFirst(b).value.0 as int;
    var b0 := b[0] as int;
    var d3, d2, d1 := b[3] as int - 0x80, b[2] as int - 0x80, b[1] as int - 0x80;
    var q := ((b0 - 0xF0) * 64 + d1) * 64 + d2;
    assert n == q * 64 + d3;
    DivMod64(q, d3);
    DivMod64((b0 - 0xF0) * 64 + d1, d2);
    DivMod64(b0 - 0xF0, d1);
    Digits(n);
  }

  /** A successful decode is its first scalar value followed by the decode
      of the remaining bytes. */
  lemma DecodeSplit(b: seq<uint8>)
    requires |b| > 0 && Decode(b).Some?
    ensures DecodeFirst(b).Some?
    ensures Decode(b[DecodeFirst(b).value.1..]).Some?
    ensures Decode(b).value == [DecodeFirst(b).value.0] + Decode(b[DecodeFirst(b).value.1..]).value
  {
  }

  /** Encoding inverts successful decoding. */
  lemma {:induction false} EncodeDecode(b: seq<uint8>, s: string)
    requires Decode(b) == Some(s)
    ensures Encode(s) == b
    decreases |b|
  {
    if |b| > 0 {
      DecodeSplit(b);
      var c := DecodeFirst(b).value.0;
      var k := DecodeFirst(b).value.1;
      var t := Decode(b[k..]).value;
      EncodeCharDecodeFirst(b);
      EncodeDecode(b[k..], t);
      EncodeCons(b, k, c, t, s);
    }
  }

  /** Bytes that split into the encoding of `c` and the encoding of `t` are
      the encoding of `[c] + t`. */
  lemma EncodeCons(b: seq<uint8>, k: nat, c: char, t: string, s: string)
    requires k <= |b| && EncodeChar(c) == b[..k] && Encode(t) == b[k..] && s == [c] + t
    ensures Encode(s) == b
  {
    assert s[0] == c && s[1..] == t;
    assert b == b[..k] + b[k..];
  }

  /** A byte sequence is well-formed UTF-8 of `s` exactly when it is the
      encoding of `s`. */
  lemma DecodeIff(b: seq<uint8>, s: string)
    ensures Decode(b) == Some(s) <==> Encode(s) == b
  {
    if Decode(b) == Some(s) {
      EncodeDecode(b, s);
    }
    if Encode(s) == b {
      DecodeEncode(s);
    }
  }

  /** On well-formed input the lossy decoder never consults its fallback. */
  lemma LossyOnEncoded(s: string, fallback: seq<uint8> -> string)
    ensures FromUtf8Lossy(Encode(s), fallback) == s
  {
    DecodeEncode(s);
  }
}
