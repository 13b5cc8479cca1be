/**
 `utf8Length` of mobile/lib/settings-bridge.ts, which measures a request body without encoding it,
 against the encodings themselves.
 */
module Utf8Length {

  // A UTF-16 code unit and a Unicode scalar value.
  type Unit = u: int | 0 <= u < 0x1_0000
  type Scalar = c: int | 0 <= c < 0xD800 || 0xE000 <= c < 0x11_0000
  type Byte = b: int | 0 <= b < 0x100

  const REPLACEMENT: Scalar := 0xFFFD

  predicate IsLead(unit: Unit) {
    0xD800 <= unit <= 0xDBFF
  }

  predicate IsTrail(unit: Unit) {
    0xDC00 <= unit <= 0xDFFF
  }

  // Section 2.1 of RFC 2781.
  function EncodeUtf16(c: Scalar): (units: seq<Unit>) {
    if c < 0x1_0000 then [c] else [0xD800 + (c - 0x1_0000) / 0x400, 0xDC00 + (c - 0x1_0000) % 0x400]
  }

  function Utf16(text: seq<Scalar>): (units: seq<Unit>) {
    if text == [] then [] else EncodeUtf16(text[0]) + Utf16(text[1..])
  }

  // Section 2.2 of RFC 2781, with each unpaired surrogate read as the replacement character.
  function Decode(units: seq<Unit>): (text: seq<Scalar>)
    decreases |units|
  {
    if units == [] then []
    else if !IsLead(units[0]) && !IsTrail(units[0]) then [units[0]] + Decode(units[1..])
    else if IsLead(units[0]) && |units| > 1 && IsTrail(units[1]) then
      [0x1_0000 + (units[0] - 0xD800) * 0x400 + (units[1] - 0xDC00)] + Decode(units[2..])
    else [REPLACEMENT] + Decode(units[1..])
  }

  // Section 3 of RFC 3629.
  function EncodeUtf8(c: Scalar): (bytes: seq<Byte>) {
    if c < 0x80 then [c]
    else if c < 0x800 then [0xC0 + c / 0x40, 0x80 + c % 0x40]
    else if c < 0x1_0000 then [0xE0 + c / 0x1000, 0x80 + c / 0x40 % 0x40, 0x80 + c % 0x40]
    else [0xF0 + c / 0x4_0000, 0x80 + c / 0x1000 % 0x40, 0x80 + c / 0x40 % 0x40, 0x80 + c % 0x40]
  }

  function Utf8(text: seq<Scalar>): (bytes: seq<Byte>) {
    if text == [] then [] else EncodeUtf8(text[0]) + Utf8(text[1..])
  }

  // The length of what a text body is sent as, for every sequence of units, paired or not.
  method Measure(text: seq<Unit>) returns (bytes: nat)
    ensures bytes == |Utf8(Decode(text))|
  {
    bytes := 0;
    var i := 0;
    while i < |text|
      invariant 0 <= i <= |text|
      invariant |Utf8(Decode(text))| == bytes + |Utf8(Decode(text[i..]))|
    {
      var unit := text[i];
      ghost var rest := text[i..];
      if unit < 0x80 {
        bytes := bytes + 1;
      } else if unit < 0x800 {
        bytes := bytes + 2;
      } else if 0xD800 <= unit <= 0xDBFF {
        if i + 1 < |text| && 0xDC00 <= text[i + 1] <= 0xDFFF {
          FirstIsMeasured(rest, rest[2..]);
          bytes := bytes + 4;
          i := i + 1;
        } else {
          bytes := bytes + 3;
        }
      } else {
        bytes := bytes + 3;
      }
      i := i + 1;
    }
  }

  // Decoding and encoding the first character of some units, and then the rest.
  lemma FirstIsMeasured(units: seq<Unit>, rest: seq<Unit>)
    requires units != []
    requires rest == if IsLead(units[0]) && |units| > 1 && IsTrail(units[1]) then units[2..] else units[1..]
    ensures Decode(units) != [] && Utf8(Decode(units)) == EncodeUtf8(Decode(units)[0]) + Utf8(Decode(rest))
  {
    assert Decode(units)[1..] == Decode(rest);
  }

  lemma EncodedCharacterIsDecoded(c: Scalar, rest: seq<Unit>)
    ensures Decode(EncodeUtf16(c) + rest) == [c] + Decode(rest)
  {
    var units := EncodeUtf16(c) + rest;
    if c < 0x1_0000 {
      assert units[0] == c && units[1..] == rest;
    } else {
      assert IsLead(units[0]) && IsTrail(units[1]) && units[2..] == rest;
    }
  }

  // Text that is held as UTF-16 is read back as itself, so its length is that of its UTF-8 bytes.
  lemma {:induction false} DecodingInvertsEncoding(text: seq<Scalar>)
    ensures Decode(Utf16(text)) == text
  {
    if text != [] {
      DecodingInvertsEncoding(text[1..]);
      EncodedCharacterIsDecoded(text[0], Utf16(text[1..]));
    }
  }

  // The other way round, encoding what was decoded gives the units back exactly when no surrogate
  // among them is unpaired: those are what the replacement character stands for.
  predicate Paired(units: seq<Unit>)
    decreases |units|
  {
    if units == [] then true
    else if !IsLead(units[0]) && !IsTrail(units[0]) then Paired(units[1..])
    else IsLead(units[0]) && |units| > 1 && IsTrail(units[1]) && Paired(units[2..])
  }

  lemma {:induction false} EncodingInvertsDecodingWhenPaired(units: seq<Unit>)
    ensures Utf16(Decode(units)) == units <==> Paired(units)
    decreases |units|
  {
    if units == [] {
    } else if IsLead(units[0]) && |units| > 1 && IsTrail(units[1]) {
      EncodingInvertsDecodingWhenPaired(units[2..]);
      FirstIsEncoded(units, units[2..]);
      assert units == units[..2] + units[2..];
    } else {
      EncodingInvertsDecodingWhenPaired(units[1..]);
      FirstIsEncoded(units, units[1..]);
      assert units == units[..1] + units[1..];
    }
  }

  lemma FirstIsEncoded(units: seq<Unit>, rest: seq<Unit>)
    requires units != []
    requires rest == if IsLead(units[0]) && |units| > 1 && IsTrail(units[1]) then units[2..] else units[1..]
    ensures Decode(units) != [] && Utf16(Decode(units)) == EncodeUtf16(Decode(units)[0]) + Utf16(Decode(rest))
  {
    assert Decode(units)[1..] == Decode(rest);
  }
}
