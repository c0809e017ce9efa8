/** UTF-8 by what it encodes (section 3 of RFC 3629): the reader's check of a tag is exact. */
module Utf8 {
  import opened Wrappers
  import opened Sequences
  import opened Decimal
  import opened Receiver

  type CodePoint = c: nat | c < 0xD800 || 0xE000 <= c < 0x11_0000

  function EncodeOne(c: CodePoint): (bytes: Bytes)
    ensures bytes != []
  {
    if c < 0x80 then [c]
    else if c < 0x800 then [0xC0 + c / 0x40, 0x80 + c % 0x40]
    else if c < 0x1_0000 then [0xE0 + c / 0x1000, 0x80 + c / 0x40 % 0x40, 0x80 + c % 0x40]
    else [0xF0 + c / 0x4_0000, 0x80 + c / 0x1000 % 0x40, 0x80 + c / 0x40 % 0x40, 0x80 + c % 0x40]
  }

  function EncodeText(text: seq<CodePoint>): Bytes {
    if text == [] then [] else EncodeOne(text[0]) + EncodeText(text[1..])
  }

  lemma {:induction false} EncodedIsUtf8(text: seq<CodePoint>)
    ensures IsUtf8(EncodeText(text))
  {
    if text != [] {
      var one, rest := EncodeOne(text[0]), EncodeText(text[1..]);
      EncodedIsUtf8(text[1..]);
      OneThenRest(text[0], rest);
    }
  }

  lemma TwoThenRest(a: Byte, b: Byte, rest: Bytes)
    requires 0xC2 <= a <= 0xDF && Continues(b) && IsUtf8(rest)
    ensures IsUtf8([a, b] + rest)
  {
    assert ([a, b] + rest)[2..] == rest;
  }

  lemma ThreeThenRest(a: Byte, b: Byte, d: Byte, rest: Bytes)
    requires 0xE0 <= a <= 0xEF && Continues(b) && Continues(d) && IsUtf8(rest)
    requires (a == 0xE0 ==> b >= 0xA0) && (a == 0xED ==> b <= 0x9F)
    ensures IsUtf8([a, b, d] + rest)
  {
    assert ([a, b, d] + rest)[3..] == rest;
  }

  lemma FourThenRest(a: Byte, b: Byte, d: Byte, e: Byte, rest: Bytes)
    requires 0xF0 <= a <= 0xF4 && Continues(b) && Continues(d) && Continues(e) && IsUtf8(rest)
    requires (a == 0xF0 ==> b >= 0x90) && (a == 0xF4 ==> b <= 0x8F)
    ensures IsUtf8([a, b, d, e] + rest)
  {
    assert ([a, b, d, e] + rest)[4..] == rest;
  }

  lemma OneThenRest(c: CodePoint, rest: Bytes)
    requires IsUtf8(rest)
    ensures IsUtf8(EncodeOne(c) + rest)
  {
    var one := EncodeOne(c);
    if c < 0x80 {
      assert (one + rest)[1..] == rest;
    } else if c < 0x800 {
      TwoThenRest(one[0], one[1], rest);
    } else if c < 0x1_0000 {
      ThreeThenRest(one[0], one[1], one[2], rest);
    } else {
      FourThenRest(one[0], one[1], one[2], one[3], rest);
    }
  }

  /** The first character of a text that passes for UTF-8. */
  lemma FirstCharacter(bytes: Bytes) returns (c: CodePoint)
    requires bytes != [] && IsUtf8(bytes)
    ensures var one := EncodeOne(c);
            |one| <= |bytes| && bytes[..|one|] == one && IsUtf8(bytes[|one|..])
  {
    var a: int := bytes[0];
    if a <= 0x7F {
      c := a;
    } else if a <= 0xDF {
      c := TwoBytes(a, bytes[1]);
    } else if a <= 0xEF {
      c := ThreeBytes(a, bytes[1], bytes[2]);
    } else {
      c := FourBytes(a, bytes[1], bytes[2], bytes[3]);
    }
  }

  lemma TwoBytes(a: Byte, b: Byte) returns (c: CodePoint)
    requires 0xC2 <= a <= 0xDF && Continues(b)
    ensures EncodeOne(c) == [a, b]
  {
    c := (a - 0xC0) * 0x40 + (b - 0x80);
  }

  lemma ThreeBytes(a: Byte, b: Byte, d: Byte) returns (c: CodePoint)
    requires 0xE0 <= a <= 0xEF && Continues(b) && Continues(d)
    requires (a == 0xE0 ==> b >= 0xA0) && (a == 0xED ==> b <= 0x9F)
    ensures EncodeOne(c) == [a, b, d]
  {
    var x: int, y: int, z: int := a - 0xE0, b - 0x80, d - 0x80;
    assert 0x800 <= x * 0x1000 + y * 0x40 + z < 0x1_0000;
    c := x * 0x1000 + y * 0x40 + z;
    assert c / 0x40 == x * 0x40 + y;
  }

  lemma FourBytes(a: Byte, b: Byte, d: Byte, e: Byte) returns (c: CodePoint)
    requires 0xF0 <= a <= 0xF4 && Continues(b) && Continues(d) && Continues(e)
    requires (a == 0xF0 ==> b >= 0x90) && (a == 0xF4 ==> b <= 0x8F)
    ensures EncodeOne(c) == [a, b, d, e]
  {
    var w: int, x: int, y: int, z: int := a - 0xF0, b - 0x80, d - 0x80, e - 0x80;
    assert 0x1_0000 <= w * 0x4_0000 + x * 0x1000 + y * 0x40 + z < 0x11_0000;
    c := w * 0x4_0000 + x * 0x1000 + y * 0x40 + z;
    assert c / 0x40 == w * 0x1000 + x * 0x40 + y;
    assert c / 0x1000 == w * 0x40 + x;
  }

  lemma {:induction false} Utf8IsEncoded(bytes: Bytes) returns (text: seq<CodePoint>)
    requires IsUtf8(bytes)
    ensures EncodeText(text) == bytes
    decreases |bytes|
  {
    if bytes == [] {
      text := [];
    } else {
      var c := FirstCharacter(bytes);
      var one := EncodeOne(c);
      var rest := Utf8IsEncoded(bytes[|one|..]);
      text := [c] + rest;
      assert text[1..] == rest && bytes == one + bytes[|one|..];
    }
  }

  /** A tag passes for UTF-8 exactly if it is the UTF-8 form of a text. */
  lemma IsUtf8Iff(bytes: Bytes)
    ensures IsUtf8(bytes) <==> exists text :: EncodeText(text) == bytes
  {
    if IsUtf8(bytes) {
      var text := Utf8IsEncoded(bytes);
    } else if text :| EncodeText(text) == bytes {
      EncodedIsUtf8(text);
    }
  }
}
