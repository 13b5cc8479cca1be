/**
 The bytes whose number mobile/lib/settings-bridge.ts measures, read back as section 3 of RFC 3629 lays them out: by the
 first byte, and only in the shortest form.
 */
module Utf8Bytes {
  import opened Utf8Length

  datatype Reading = Character(scalar: int, length: nat) | Malformed

  predicate IsContinuation(bytes: seq<Byte>, i: nat) {
    i < |bytes| && 0x80 <= bytes[i] <= 0xBF
  }

  // What a byte carries beside its mark.
  function Payload(byte: Byte, mark: int): int {
    byte as int - mark
  }

  // 0xxxxxxx, 110xxxxx 10xxxxxx, 1110xxxx 10xxxxxx 10xxxxxx, or 11110xxx and three more.
  function ReadFirst(bytes: seq<Byte>): Reading {
    if bytes == [] then Malformed
    else if bytes[0] <= 0x7F then Character(bytes[0], 1)
    else if 0xC0 <= bytes[0] <= 0xDF && IsContinuation(bytes, 1) then
      Shortest(Payload(bytes[0], 0xC0) * 0x40 + Payload(bytes[1], 0x80), 0x80, 2)
    else if 0xE0 <= bytes[0] <= 0xEF && IsContinuation(bytes, 1) && IsContinuation(bytes, 2) then
      Shortest(Payload(bytes[0], 0xE0) * 0x1000 + Payload(bytes[1], 0x80) * 0x40 + Payload(bytes[2], 0x80), 0x800, 3)
    else if 0xF0 <= bytes[0] <= 0xF7 && IsContinuation(bytes, 1) && IsContinuation(bytes, 2) && IsContinuation(bytes, 3) then
      Shortest(Payload(bytes[0], 0xF0) * 0x4_0000 + Payload(bytes[1], 0x80) * 0x1000 + Payload(bytes[2], 0x80) * 0x40 + Payload(bytes[3], 0x80),
               0x1_0000, 4)
    else Malformed
  }

  function Shortest(scalar: int, least: int, length: nat): Reading {
    if scalar < least then Malformed else Character(scalar, length)
  }

  // None where a character is malformed.
  function Read(bytes: seq<Byte>): (text: seq<int>)
    decreases |bytes|
  {
    match ReadFirst(bytes)
    case Malformed => []
    case Character(scalar, length) => if 0 < length <= |bytes| then [scalar] + Read(bytes[length..]) else []
  }

  lemma SixBits(c: int)
    ensures c == c / 0x40 * 0x40 + c % 0x40 && 0 <= c % 0x40 < 0x40
  {
  }

  lemma TwelveBits(c: int)
    ensures c / 0x40 / 0x40 == c / 0x1000 && c == c / 0x1000 * 0x1000 + c / 0x40 % 0x40 * 0x40 + c % 0x40
  {
    SixBits(c);
    SixBits(c / 0x40);
  }

  lemma EighteenBits(c: int)
    ensures c == c / 0x4_0000 * 0x4_0000 + c / 0x1000 % 0x40 * 0x1000 + c / 0x40 % 0x40 * 0x40 + c % 0x40
  {
    TwelveBits(c);
    SixBits(c / 0x1000);
    assert c / 0x1000 / 0x40 == c / 0x4_0000;
  }

  lemma CharacterIsReadBack(c: Scalar, rest: seq<Byte>)
    ensures ReadFirst(EncodeUtf8(c) + rest) == Character(c, |EncodeUtf8(c)|)
  {
    var bytes := EncodeUtf8(c) + rest;
    if c < 0x80 {
      assert bytes[0] == c;
    } else if c < 0x800 {
      SixBits(c);
      assert bytes[0] == 0xC0 + c / 0x40 && bytes[1] == 0x80 + c % 0x40;
    } else if c < 0x1_0000 {
      TwelveBits(c);
      assert bytes[0] == 0xE0 + c / 0x1000 && bytes[1] == 0x80 + c / 0x40 % 0x40 && bytes[2] == 0x80 + c % 0x40;
    } else {
      EighteenBits(c);
      assert bytes[0] == 0xF0 + c / 0x4_0000 && bytes[1] == 0x80 + c / 0x1000 % 0x40;
      assert bytes[2] == 0x80 + c / 0x40 % 0x40 && bytes[3] == 0x80 + c % 0x40;
    }
  }

  // Every text is read back from its bytes, so what is measured is the length of its only shortest form.
  lemma {:induction false} ReadingInvertsEncoding(text: seq<Scalar>)
    ensures Read(Utf8(text)) == text
  {
    if text != [] {
      var first, rest := EncodeUtf8(text[0]), Utf8(text[1..]);
      CharacterIsReadBack(text[0], rest);
      ReadingInvertsEncoding(text[1..]);
      assert (first + rest)[|first|..] == rest;
    }
  }
}
