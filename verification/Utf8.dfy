/**
 The UTF-8 codec of the compiler. Masks and shifts of bytes are written as the arithmetic they perform:
 `b & 0x3F` on a continuation byte is `b % 64`, `c >> 6` is `c / 64`.
 */
module Utf8 {
  import opened Options

  type Byte = b: nat | b < 256

  predicate IsContinuation(b: Byte) {
    0x80 <= b < 0xC0
  }

  predicate IsScalar(c: nat) {
    c <= 0x10FFFF && !(0xD800 <= c <= 0xDFFF)
  }

  function Encode(c: nat): (bytes: seq<Byte>)
    requires IsScalar(c)
    ensures 1 <= |bytes| <= 4
  {
    if c <= 0x7F then [c]
    else if c <= 0x7FF then [0xC0 + c / 64, 0x80 + c % 64]
    else if c <= 0xFFFF then [0xE0 + c / 4096, 0x80 + c / 64 % 64, 0x80 + c % 64]
    else [0xF0 + c / 262144, 0x80 + c / 4096 % 64, 0x80 + c / 64 % 64, 0x80 + c % 64]
  }

  /** The well-formed byte sequences of one character, as the syntax of section 4 of RFC 3629 lists them. */
  predicate WellFormedCharacter(b: seq<Byte>) {
    match |b| {
      case 1 => b[0] <= 0x7F
      case 2 => 0xC2 <= b[0] <= 0xDF && IsContinuation(b[1])
      case 3 =>
        && IsContinuation(b[2])
        && (|| (b[0] == 0xE0 && 0xA0 <= b[1] <= 0xBF)
            || (0xE1 <= b[0] <= 0xEC && IsContinuation(b[1]))
            || (b[0] == 0xED && 0x80 <= b[1] <= 0x9F)
            || (0xEE <= b[0] <= 0xEF && IsContinuation(b[1])))
      case 4 =>
        && IsContinuation(b[2])
        && IsContinuation(b[3])
        && (|| (b[0] == 0xF0 && 0x90 <= b[1] <= 0xBF)
            || (0xF1 <= b[0] <= 0xF3 && IsContinuation(b[1]))
            || (b[0] == 0xF4 && 0x80 <= b[1] <= 0x8F))
      case _ => false
    }
  }

  /** The six bits a continuation byte carries. */
  function SixBits(b: Byte): (v: int)
    ensures 0 <= v < 64
    ensures IsContinuation(b) ==> v == b - 0x80
  {
    b % 64
  }

  /** A decoded scalar and the bytes it took. */
  datatype Decoded = Decoded(scalar: nat, width: nat)

  /** The number the payload bits of a well-formed character spell. */
  function ScalarOf(b: seq<Byte>): nat
    requires WellFormedCharacter(b)
  {
    var first: int := b[0];
    match |b| {
      case 1 => first
      case 2 => (first - 0xC0) * 64 + SixBits(b[1])
      case 3 => (first - 0xE0) * 4096 + SixBits(b[1]) * 64 + SixBits(b[2])
      case 4 => (first - 0xF0) * 262144 + SixBits(b[1]) * 4096 + SixBits(b[2]) * 64 + SixBits(b[3])
    }
  }

  /** The base-64 digits of a number. */
  lemma SixBitDigits(c: nat)
    ensures c == c / 64 * 64 + c % 64
    ensures c / 64 == c / 4096 * 64 + c / 64 % 64
    ensures c / 4096 == c / 262144 * 64 + c / 4096 % 64
  {
  }

  lemma EncodeIsWellFormed(c: nat)
    requires IsScalar(c)
    ensures WellFormedCharacter(Encode(c)) && ScalarOf(Encode(c)) == c
    ensures forall k :: 0 < k < |Encode(c)| ==> IsContinuation(Encode(c)[k])
    ensures !IsContinuation(Encode(c)[0])
  {
    SixBitDigits(c);
  }

  lemma Digits64(h: nat, l: nat)
    requires l < 64
    ensures (h * 64 + l) / 64 == h && (h * 64 + l) % 64 == l
  {
  }

  lemma Digits4096(c: nat)
    ensures c / 64 / 64 == c / 4096 && c / 4096 / 64 == c / 262144
  {
  }

  lemma WellFormedIsEncoded(b: seq<Byte>)
    requires WellFormedCharacter(b)
    ensures IsScalar(ScalarOf(b)) && Encode(ScalarOf(b)) == b
  {
    var first: int := b[0];
    if |b| == 2 {
      Digits64(first - 0xC0, SixBits(b[1]));
    } else if |b| == 3 {
      ThreeBytes(b);
    } else if |b| == 4 {
      FourBytes(b);
    }
  }

  lemma ThreeBytes(b: seq<Byte>)
    requires |b| == 3 && WellFormedCharacter(b)
    ensures IsScalar(ScalarOf(b)) && Encode(ScalarOf(b)) == b
  {
    hide SixBits;
    var h: nat, m, l := b[0] - 0xE0, SixBits(b[1]), SixBits(b[2]);
    var c := (h * 64 + m) * 64 + l;
    assert c == ScalarOf(b);
    assert 0x800 <= c <= 0xFFFF && !(0xD800 <= c <= 0xDFFF);
    Digits64(h * 64 + m, l);
    Digits64(h, m);
    Digits4096(c);
    assert Encode(c) == [0xE0 + h, 0x80 + m, 0x80 + l];
  }

  lemma FourBytes(b: seq<Byte>)
    requires |b| == 4 && WellFormedCharacter(b)
    ensures IsScalar(ScalarOf(b)) && Encode(ScalarOf(b)) == b
  {
    hide SixBits;
    var g: nat, h, m, l := b[0] - 0xF0, SixBits(b[1]), SixBits(b[2]), SixBits(b[3]);
    var c := ((g * 64 + h) * 64 + m) * 64 + l;
    assert c == ScalarOf(b);
    assert 0x10000 <= c <= 0x10FFFF;
    Digits64((g * 64 + h) * 64 + m, l);
    Digits64(g * 64 + h, m);
    Digits64(g, h);
    Digits4096(c);
    assert Encode(c) == [0xF0 + g, 0x80 + h, 0x80 + m, 0x80 + l];
  }

  /** How many bytes a first byte announces; zero when no character starts with it. */
  function Announced(first: Byte): (w: nat)
    ensures w <= 4
  {
    if first <= 0x7F then 1
    else if 0xC2 <= first <= 0xDF then 2
    else if 0xE0 <= first <= 0xEF then 3
    else if 0xF0 <= first <= 0xF4 then 4
    else 0
  }

  /** Reading one character at the front of the bytes: the only answer the RFC permits. */
  function Decode(bytes: seq<Byte>): (d: Option<Decoded>)
    ensures d.Some? ==>
      0 < d.value.width <= |bytes| && IsScalar(d.value.scalar) && Encode(d.value.scalar) == bytes[..d.value.width]
  {
    if bytes == [] then None
    else
      var w := Announced(bytes[0]);
      if w == 0 || |bytes| < w || !WellFormedCharacter(bytes[..w]) then None
      else
        WellFormedIsEncoded(bytes[..w]);
        Some(Decoded(ScalarOf(bytes[..w]), w))
  }

  /** Decoding inverts encoding, whatever follows. */
  lemma DecodeInvertsEncode(c: nat, rest: seq<Byte>)
    requires IsScalar(c)
    ensures Decode(Encode(c) + rest) == Some(Decoded(c, |Encode(c)|))
  {
    EncodeIsWellFormed(c);
    var bytes := Encode(c) + rest;
    assert bytes[0] == Encode(c)[0];
    assert Announced(bytes[0]) == |Encode(c)|;
    assert bytes[..|Encode(c)|] == Encode(c);
  }

  /** A character is decoded exactly when the bytes begin with some scalar's encoding, and then it is that scalar. */
  lemma DecodesExactly(bytes: seq<Byte>, c: nat, w: nat)
    ensures Decode(bytes) == Some(Decoded(c, w)) <==>
      IsScalar(c) && w == |Encode(c)| && Encode(c) <= bytes
  {
    if IsScalar(c) && w == |Encode(c)| && Encode(c) <= bytes {
      DecodeInvertsEncode(c, bytes[w..]);
      assert bytes == Encode(c) + bytes[w..];
    }
  }

  /** The decoder of the compiler: first byte, continuation loop, then the overlong and surrogate checks. */
  method DecodeScalar(bytes: seq<Byte>) returns (d: Option<Decoded>)
    ensures d == Decode(bytes)
  {
    if |bytes| == 0 {
      return None;
    }
    var first := bytes[0];
    if first <= 0x7F {
      assert bytes[..1] == [first];
      return Some(Decoded(first, 1));
    }
    var width: nat;
    var codepoint: nat;
    if 0xC2 <= first <= 0xDF {
      width, codepoint := 2, first % 32;
    } else if 0xE0 <= first <= 0xEF {
      width, codepoint := 3, first % 16;
    } else if 0xF0 <= first <= 0xF4 {
      width, codepoint := 4, first % 8;
    } else {
      return None;
    }
    if |bytes| < width {
      return None;
    }
    assert width == Announced(first);
    var lead := codepoint;
    for index := 1 to width
      invariant forall k :: 1 <= k < index ==> IsContinuation(bytes[k])
      invariant codepoint == Accumulated(bytes, lead, index)
    {
      var byte := bytes[index];
      if !IsContinuation(byte) {
        assert !IsContinuation(bytes[..width][index]);
        return None;
      }
      codepoint := codepoint * 64 + SixBits(byte);
    }
    CheckedIsWellFormed(bytes[..width], lead);
    AccumulatedPrefix(bytes, lead, width, width);
    if (width == 2 && codepoint < 0x80) || (width == 3 && codepoint < 0x800) || (width == 4 && codepoint < 0x10000)
       || !IsScalar(codepoint) {
      return None;
    }
    return Some(Decoded(codepoint, width));
  }

  /** The lead bits followed by the payload bits of the continuation bytes before `index`. */
  function Accumulated(bytes: seq<Byte>, lead: nat, index: nat): nat
    requires 1 <= index <= |bytes|
  {
    if index == 1 then lead else Accumulated(bytes, lead, index - 1) * 64 + SixBits(bytes[index - 1])
  }

  lemma {:induction false} AccumulatedPrefix(bytes: seq<Byte>, lead: nat, index: nat, width: nat)
    requires 1 <= index <= width <= |bytes|
    ensures Accumulated(bytes, lead, index) == Accumulated(bytes[..width], lead, index)
  {
    if index > 1 {
      AccumulatedPrefix(bytes, lead, index - 1, width);
    }
  }

  /** What the decoder accepts once its loop is done. */
  predicate Accepted(width: nat, c: nat) {
    && !(width == 2 && c < 0x80)
    && !(width == 3 && c < 0x800)
    && !(width == 4 && c < 0x10000)
    && IsScalar(c)
  }

  /** The length, overlong and surrogate checks together accept exactly the RFC's table. */
  lemma CheckedIsWellFormed(b: seq<Byte>, lead: nat)
    requires 2 <= |b| == Announced(b[0])
    requires lead == (if |b| == 2 then b[0] % 32 else if |b| == 3 then b[0] % 16 else b[0] % 8)
    requires forall k :: 1 <= k < |b| ==> IsContinuation(b[k])
    ensures WellFormedCharacter(b) <==> Accepted(|b|, Accumulated(b, lead, |b|))
    ensures WellFormedCharacter(b) ==> ScalarOf(b) == Accumulated(b, lead, |b|)
  {
    hide WellFormedCharacter, ScalarOf, Accepted, SixBits;
    assert Accumulated(b, lead, 2) == lead * 64 + SixBits(b[1]);
    if |b| == 2 {
      CheckedTwo(b);
    } else if |b| == 3 {
      assert Accumulated(b, lead, 3) == (lead * 64 + SixBits(b[1])) * 64 + SixBits(b[2]);
      CheckedThree(b);
    } else {
      assert Accumulated(b, lead, 3) == (lead * 64 + SixBits(b[1])) * 64 + SixBits(b[2]);
      assert Accumulated(b, lead, 4) == ((lead * 64 + SixBits(b[1])) * 64 + SixBits(b[2])) * 64 + SixBits(b[3]);
      CheckedFour(b);
    }
  }

  lemma CheckedTwo(b: seq<Byte>)
    requires |b| == 2 && 0xC2 <= b[0] <= 0xDF && IsContinuation(b[1])
    ensures WellFormedCharacter(b) && ScalarOf(b) == b[0] % 32 * 64 + SixBits(b[1])
    ensures Accepted(2, b[0] % 32 * 64 + SixBits(b[1]))
  {
    assert b[0] % 32 == b[0] - 0xC0;
  }

  lemma CheckedThree(b: seq<Byte>)
    requires |b| == 3 && 0xE0 <= b[0] <= 0xEF && IsContinuation(b[1]) && IsContinuation(b[2])
    ensures
      var c := (b[0] % 16 * 64 + SixBits(b[1])) * 64 + SixBits(b[2]);
      && (WellFormedCharacter(b) <==> Accepted(3, c))
      && (WellFormedCharacter(b) ==> ScalarOf(b) == c)
  {
    assert b[0] % 16 == b[0] - 0xE0;
    var x: int, y := SixBits(b[1]), SixBits(b[2]);
    assert x == b[1] - 0x80 && 0 <= y < 64;
    hide SixBits;
  }

  lemma CheckedFour(b: seq<Byte>)
    requires |b| == 4 && 0xF0 <= b[0] <= 0xF4
    requires IsContinuation(b[1]) && IsContinuation(b[2]) && IsContinuation(b[3])
    ensures
      var c := ((b[0] % 8 * 64 + SixBits(b[1])) * 64 + SixBits(b[2])) * 64 + SixBits(b[3]);
      && (WellFormedCharacter(b) <==> Accepted(4, c))
      && (WellFormedCharacter(b) ==> ScalarOf(b) == c)
  {
    assert b[0] % 8 == b[0] - 0xF0;
    var x: int, y, z := SixBits(b[1]), SixBits(b[2]), SixBits(b[3]);
    assert x == b[1] - 0x80 && 0 <= y < 64 && 0 <= z < 64;
    hide SixBits;
  }

  // ----- texts -----

  ghost predicate Scalars(cs: seq<nat>) {
    forall i :: 0 <= i < |cs| ==> IsScalar(cs[i])
  }

  function EncodeAll(cs: seq<nat>): seq<Byte>
    requires forall i :: 0 <= i < |cs| ==> IsScalar(cs[i])
  {
    if cs == [] then [] else Encode(cs[0]) + EncodeAll(cs[1..])
  }

  /** The scalars of a text; nothing for bytes that are not UTF-8. */
  function DecodeAll(bytes: seq<Byte>): (r: Option<seq<nat>>)
    ensures r.Some? ==> (forall i :: 0 <= i < |r.value| ==> IsScalar(r.value[i])) && EncodeAll(r.value) == bytes
    decreases |bytes|
  {
    if bytes == [] then Some([])
    else
      var d := Decode(bytes);
      if d.None? then None
      else
        var rest := DecodeAll(bytes[d.value.width..]);
        if rest.None? then None
        else
          assert bytes == bytes[..d.value.width] + bytes[d.value.width..];
          var r := [d.value.scalar] + rest.value;
          assert r[1..] == rest.value;
          Some(r)
  }

  lemma {:induction false} DecodeAllInvertsEncodeAll(cs: seq<nat>)
    requires Scalars(cs)
    ensures DecodeAll(EncodeAll(cs)) == Some(cs)
  {
    hide Encode, Decode;
    if cs != [] {
      assert [cs[0]] + cs[1..] == cs;
      var rest := EncodeAll(cs[1..]);
      var bytes := EncodeAll(cs);
      DecodeInvertsEncode(cs[0], rest);
      assert bytes[|Encode(cs[0])|..] == rest;
      DecodeAllInvertsEncodeAll(cs[1..]);
    }
  }

  lemma {:induction false} EncodeAllAppends(cs: seq<nat>, ds: seq<nat>)
    requires Scalars(cs) && Scalars(ds)
    ensures Scalars(cs + ds) && EncodeAll(cs + ds) == EncodeAll(cs) + EncodeAll(ds)
  {
    hide Encode;
    if cs == [] {
      assert cs + ds == ds;
    } else {
      EncodeAllAppends(cs[1..], ds);
      assert (cs + ds)[1..] == cs[1..] + ds;
    }
  }
}
