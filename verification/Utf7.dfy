/** Modified UTF-7 mailbox names (section 5.1.3 of RFC 3501).

    The encoder packs 16-bit units into six-bit digits, the decoder unpacks them; both keep
    their bits in a 32-bit accumulator whose stale high bits are never cleared. */
module Utf7 {
  import opened Sequences
  import opened Wrappers

  type Byte = bv8
  type Unit = bv16
  type Word = bv32

  /** A Unicode scalar value, what a Rust `char` holds. */
  type Scalar = c: bv32 | c < 0xD800 || 0xE000 <= c < 0x11_0000

  const AMPERSAND: Byte := 0x26
  const HYPHEN: Byte := 0x2D

  /** The six-bit alphabet: base64 with `,` in place of `/`. */
  function Digit(v: Byte): (b: Byte)
    requires v < 64
    ensures Rank(b) == v && 0x20 <= b < 0x7F && b != HYPHEN && b != AMPERSAND
  {
    if v < 26 then 65 + v
    else if v < 52 then 97 + (v - 26)
    else if v < 62 then 48 + (v - 52)
    else if v == 62 then 43
    else 44
  }

  /** The value of a digit, 255 for a byte outside the alphabet. */
  function Rank(b: Byte): Byte {
    if 65 <= b <= 90 then b - 65
    else if 97 <= b <= 122 then b - 97 + 26
    else if 48 <= b <= 57 then b - 48 + 52
    else if b == 43 then 62
    else if b == 44 then 63
    else 255
  }

  /** UTF-8, for the two shapes that are pushed unencoded: an ASCII character, and a character
      beyond the 16-bit range whose low 16 bits look like one. */
  function Utf8(c: Scalar): (bytes: seq<Byte>)
    requires c < 0x80 || c >= 0x1_0000
    ensures |bytes| == (if c < 0x80 then 1 else 4)
    ensures c >= 0x1_0000 ==> forall i :: 0 <= i < 4 ==> bytes[i] >= 0x80
  {
    if c < 0x80 then [c as Byte]
    else [(0xF0 | (c >> 18)) as Byte, (0x80 | ((c >> 12) & 0x3F)) as Byte,
          (0x80 | ((c >> 6) & 0x3F)) as Byte, (0x80 | (c & 0x3F)) as Byte]
  }

  // ----- Encoder -----

  datatype Encoder = Encoder(shifted: bool, bits: Word, u: Word)

  /** `c as u16`. */
  function Low(c: Scalar): Unit {
    (c & 0xFFFF) as Unit
  }

  predicate Direct(c: Scalar)
    ensures Direct(c) ==> c < 0x80 || c >= 0x1_0000
  {
    0x20 <= Low(c) < 0x7F
  }

  /** The accumulator with a unit appended; its top sixteen bits are lost. */
  function PushUnit(u: Word, ch: Unit): Word {
    (u << 16) | (ch as Word)
  }

  /** Six bits of the accumulator as a digit. */
  function DigitAt(u: Word, shift: Word): Byte
    requires shift <= 32
  {
    Digit(((u >> shift) & 0x3F) as Byte)
  }

  /** The last digit of a run: the bits left over, padded with zeros. */
  function Padded(u: Word, bits: Word): Byte
    requires bits <= 6
  {
    Digit(Pad(u, bits))
  }

  function Pad(u: Word, bits: Word): (v: Byte)
    requires bits <= 6
    ensures v < 64
  {
    ((u << (6 - bits)) & 0x3F) as Byte
  }

  /** The digits leaving the accumulator while it holds six bits or more. */
  function Flush(u: Word, bits: Word): seq<Byte>
    requires bits <= 32
    decreases bits
  {
    if bits < 6 then [] else [DigitAt(u, bits - 6)] + Flush(u, bits - 6)
  }

  /** The bits that stay in the accumulator. */
  function Left(bits: Word): (left: Word)
    requires bits <= 32
    ensures left < 6
    decreases bits
  {
    if bits < 6 then bits else Left(bits - 6)
  }

  /** Ends a shifted run: the left-over bits, then a hyphen. */
  function Close(e: Encoder): seq<Byte>
    requires e.bits < 6
  {
    if !e.shifted then []
    else (if e.bits > 0 then [Padded(e.u, e.bits)] else []) + [HYPHEN]
  }

  function StepState(c: Scalar, e: Encoder): (next: Encoder)
    requires e.bits < 6
    ensures next.bits < 6
  {
    if !Direct(c) then Encoder(true, Left(e.bits + 16), PushUnit(e.u, Low(c)))
    else if e.shifted then Encoder(false, 0, e.u)
    else e
  }

  function StepOutput(c: Scalar, e: Encoder): seq<Byte>
    requires e.bits < 6
  {
    if Direct(c) then
      Close(e) + (if Low(c) == 0x26 then [AMPERSAND, HYPHEN] else Utf8(c))
    else
      (if e.shifted then [] else [AMPERSAND]) + Flush(PushUnit(e.u, Low(c)), e.bits + 16)
  }

  function EncodeFrom(text: seq<Scalar>, e: Encoder): seq<Byte>
    requires e.bits < 6
  {
    if text == [] then Close(e)
    else StepOutput(text[0], e) + EncodeFrom(text[1..], StepState(text[0], e))
  }

  function Encode(text: seq<Scalar>): seq<Byte> {
    EncodeFrom(text, Encoder(false, 0, 0))
  }

  /** The inner loop of the encoder. */
  method PushDigits(buf: seq<Byte>, u: Word, available: Word) returns (result: seq<Byte>, bits: Word)
    requires available <= 32
    ensures result == buf + Flush(u, available) && bits == Left(available)
  {
    result, bits := buf, available;
    while bits >= 6
      invariant bits <= 32 && Left(bits) == Left(available)
      invariant result + Flush(u, bits) == buf + Flush(u, available)
      decreases bits
    {
      result := result + [DigitAt(u, bits - 6)];
      bits := bits - 6;
    }
  }

  /** Ends a shifted run, before a direct character and at the end of the text. */
  method PushClose(buf: seq<Byte>, u: Word, bits: Word) returns (result: seq<Byte>)
    requires bits < 6
    ensures result == buf + Close(Encoder(true, bits, u))
  {
    result := buf;
    if bits > 0 {
      result := result + [Padded(u, bits)];
    }
    result := result + [HYPHEN];
  }

  /** A character that is written as it is. */
  method PushDirect(buf: seq<Byte>, c: Scalar, e: Encoder) returns (result: seq<Byte>, next: Encoder)
    requires e.bits < 6 && Direct(c)
    ensures result == buf + StepOutput(c, e) && next == StepState(c, e)
  {
    result, next := buf, e;
    if e.shifted {
      result := PushClose(result, e.u, e.bits);
      next := Encoder(false, 0, e.u);
    }
    if Low(c) == 0x26 {
      result := result + [AMPERSAND, HYPHEN];
    } else {
      result := result + Utf8(c);
    }
  }

  /** The body of the encoder's main loop. */
  method PushChar(buf: seq<Byte>, c: Scalar, e: Encoder) returns (result: seq<Byte>, next: Encoder)
    requires e.bits < 6
    ensures result == buf + StepOutput(c, e) && next == StepState(c, e)
  {
    if Direct(c) {
      result, next := PushDirect(buf, c, e);
    } else {
      result := buf;
      if !e.shifted {
        result := result + [AMPERSAND];
      }
      var u := PushUnit(e.u, Low(c));
      var bits;
      result, bits := PushDigits(result, u, e.bits + 16);
      next := Encoder(true, bits, u);
    }
  }

  method Utf7Encode(text: seq<Scalar>) returns (result: seq<Byte>)
    ensures result == Encode(text)
  {
    result := [];
    var e := Encoder(false, 0, 0);
    assert text[0..] == text;
    for i := 0 to |text|
      invariant e.bits < 6
      invariant result + EncodeFrom(text[i..], e) == Encode(text)
    {
      assert text[i..][1..] == text[i + 1..];
      Associative(result, StepOutput(text[i], e), EncodeFrom(text[i + 1..], StepState(text[i], e)));
      result, e := PushChar(result, text[i], e);
    }
    if e.shifted {
      result := PushClose(result, e.u, e.bits);
    }
  }

  // ----- Decoder -----

  datatype Decoder = Decoder(shifted: bool, bits: Word, v: Word)

  /** Prepends to a decoding that may have failed. */
  function Cons<T>(x: T, xs: Option<seq<T>>): Option<seq<T>> {
    if xs.None? then None else Some([x] + xs.value)
  }

  function PushDigit(v: Word, rank: Byte): Word {
    (v << 6) | (rank as Word)
  }

  function UnitAt(v: Word, shift: Word): Unit
    requires shift <= 32
  {
    ((v >> shift) & 0xFFFF) as Unit
  }

  /** The 16-bit units still to come out of `bytes`; None for a byte outside the alphabet. */
  function DecodeFrom(bytes: seq<Byte>, d: Decoder): Option<seq<Unit>>
    requires d.bits < 16
  {
    if bytes == [] then Some([])
    else if d.shifted then
      if bytes[0] == HYPHEN then DecodeFrom(bytes[1..], Decoder(false, 0, 0))
      else if bytes[0] > 127 || Rank(bytes[0]) == 0xFF then None
      else
        var v, bits := PushDigit(d.v, Rank(bytes[0])), d.bits + 6;
        if bits >= 16 then
          Cons(UnitAt(v, bits - 16), DecodeFrom(bytes[1..], Decoder(true, bits - 16, v)))
        else
          DecodeFrom(bytes[1..], Decoder(true, bits, v))
    else if bytes[0] == AMPERSAND && |bytes| > 1 then
      if bytes[1] == HYPHEN then Cons(AMPERSAND as Unit, DecodeFrom(bytes[2..], d))
      else DecodeFrom(bytes[1..], Decoder(true, d.bits, d.v))
    else
      Cons(bytes[0] as Unit, DecodeFrom(bytes[1..], d))
  }

  predicate IsHigh(u: Unit) { 0xD800 <= u < 0xDC00 }

  predicate IsLow(u: Unit) { 0xDC00 <= u < 0xE000 }

  /** The character that a surrogate pair stands for. */
  function Pair(h: Unit, l: Unit): (c: Scalar)
    requires IsHigh(h) && IsLow(l)
    ensures c >= 0x1_0000
  {
    0x1_0000 + (((h - 0xD800) as Word) << 10) + ((l - 0xDC00) as Word)
  }

  /** `String::from_utf16`: None on an unpaired surrogate. */
  function FromUtf16(units: seq<Unit>): Option<seq<Scalar>> {
    if units == [] then Some([])
    else if !IsHigh(units[0]) && !IsLow(units[0]) then
      var c: Scalar := units[0] as Word;
      Cons(c, FromUtf16(units[1..]))
    else if IsHigh(units[0]) && |units| > 1 && IsLow(units[1]) then
      Cons(Pair(units[0], units[1]), FromUtf16(units[2..]))
    else None
  }

  function Decode(bytes: seq<Byte>): Option<seq<Scalar>> {
    var units := DecodeFrom(bytes, Decoder(false, 0, 0));
    if units.None? then None else FromUtf16(units.value)
  }

  method Utf7Decode(text: seq<Byte>) returns (result: Option<seq<Scalar>>)
    ensures result == Decode(text)
  {
    var units: seq<Unit> := [];
    var bits: Word, v: Word, shifted := 0, 0, false;
    ghost var all := DecodeFrom(text, Decoder(false, 0, 0));
    assert text[0..] == text;
    assert all.Some? ==> [] + all.value == all.value;
    var i := 0;
    while i < |text|
      invariant 0 <= i <= |text| && bits < 16
      invariant all == Prepend(units, DecodeFrom(text[i..], Decoder(shifted, bits, v)))
    {
      ghost var here := Decoder(shifted, bits, v);
      assert text[i..][1..] == text[i + 1..];
      var ch := text[i];
      i := i + 1;
      if shifted {
        if ch == HYPHEN {
          shifted, bits, v := false, 0, 0;
        } else if ch > 127 {
          return None;
        } else {
          var rank := Rank(ch);
          if rank == 0xFF {
            return None;
          }
          v := PushDigit(v, rank);
          bits := bits + 6;
          if bits >= 16 {
            PrependCons(units, UnitAt(v, bits - 16), DecodeFrom(text[i..], Decoder(true, bits - 16, v)));
            units := units + [UnitAt(v, bits - 16)];
            bits := bits - 16;
          }
        }
      } else if ch == AMPERSAND {
        if i < |text| && text[i] == HYPHEN {
          assert text[i - 1..][2..] == text[i + 1..];
          PrependCons(units, AMPERSAND as Unit, DecodeFrom(text[i + 1..], here));
          units := units + [AMPERSAND as Unit];
          i := i + 1;
        } else if i < |text| {
          shifted := true;
        } else {
          PrependCons(units, ch as Unit, DecodeFrom(text[i..], here));
          units := units + [ch as Unit];
        }
      } else {
        PrependCons(units, ch as Unit, DecodeFrom(text[i..], here));
        units := units + [ch as Unit];
      }
    }
    assert units + [] == units;
    return FromUtf16(units);
  }

  ghost function Prepend<T>(xs: seq<T>, ys: Option<seq<T>>): Option<seq<T>> {
    if ys.None? then None else Some(xs + ys.value)
  }

  lemma PrependCons<T>(xs: seq<T>, x: T, ys: Option<seq<T>>)
    ensures Prepend(xs, Cons(x, ys)) == Prepend(xs + [x], ys)
  {
    if ys.Some? {
      assert xs + ([x] + ys.value) == xs + [x] + ys.value;
    }
  }

  // ----- Round trip -----

  /** The decoder `v` knows all but the last `k` bits of `p`, the encoder `u` holds those `k` bits. */
  ghost predicate Shares(u: Word, v: Word, p: Unit, k: Word)
    requires k == 2 || k == 4
  {
    if k == 4 then v & 0xFFF == (p >> 4) as Word && u & 0xF == (p & 0xF) as Word
    else v & 0x3FFF == (p >> 2) as Word && u & 0x3 == (p & 0x3) as Word
  }

  /** What a decoder that has read all the encoder's output so far still holds back: nothing, or
      one unit that it shares with the encoder. */
  ghost predicate InStep(e: Encoder, d: Decoder, pending: seq<Unit>) {
    && e.shifted == d.shifted
    && if e.bits == 0 then d.bits == 0 && pending == []
       else
         && e.shifted && |pending| == 1 && (e.bits == 2 || e.bits == 4)
         && d.bits == 16 - e.bits && Shares(e.u, d.v, pending[0], e.bits)
  }

  /** What one digit does to a shifted decoder. */
  function StepDigit(v: Byte, d: Decoder): (r: (seq<Unit>, Decoder))
    requires d.bits < 16
    ensures r.1.bits < 16
  {
    var w, bits := PushDigit(d.v, v), d.bits + 6;
    if bits >= 16 then ([UnitAt(w, bits - 16)], Decoder(true, bits - 16, w)) else ([], Decoder(true, bits, w))
  }

  lemma DecodeDigit(v: Byte, rest: seq<Byte>, d: Decoder)
    requires v < 64 && d.shifted && d.bits < 16
    ensures var (units, d') := StepDigit(v, d);
            DecodeFrom([Digit(v)] + rest, d) == Prepend(units, DecodeFrom(rest, d'))
  {
    assert ([Digit(v)] + rest)[1..] == rest;
    var tail := DecodeFrom(rest, StepDigit(v, d).1);
    assert tail.Some? ==> [] + tail.value == tail.value;
  }

  lemma PrependTwice<T>(xs: seq<T>, ys: seq<T>, zs: Option<seq<T>>)
    ensures Prepend(xs, Prepend(ys, zs)) == Prepend(xs + ys, zs)
  {
    if zs.Some? {
      assert xs + (ys + zs.value) == xs + ys + zs.value;
    }
  }

  lemma DecodeTwoDigits(v: Byte, w: Byte, rest: seq<Byte>, d: Decoder)
    requires v < 64 && w < 64 && d.shifted && d.bits < 16
    ensures var (units, d') := StepDigit(v, d);
            var (units', d'') := StepDigit(w, d');
            DecodeFrom([Digit(v), Digit(w)] + rest, d) == Prepend(units + units', DecodeFrom(rest, d''))
  {
    var (units, d') := StepDigit(v, d);
    var (units', d'') := StepDigit(w, d');
    assert [Digit(v), Digit(w)] + rest == [Digit(v)] + ([Digit(w)] + rest);
    DecodeDigit(v, [Digit(w)] + rest, d);
    DecodeDigit(w, rest, d');
    PrependTwice(units, units', DecodeFrom(rest, d''));
  }

  function Bits(u: Word, shift: Word): (v: Byte)
    requires shift <= 32
    ensures v < 64
  {
    ((u >> shift) & 0x3F) as Byte
  }

  lemma FlushDigits16(u: Word)
    ensures Flush(u, 16) == [Digit(Bits(u, 10)), Digit(Bits(u, 4))]
  {
    assert Flush(u, 4) == [];
    assert Flush(u, 10) == [DigitAt(u, 4)];
  }

  lemma FlushDigits18(u: Word)
    ensures Flush(u, 18) == [Digit(Bits(u, 12)), Digit(Bits(u, 6)), Digit(Bits(u, 0))]
  {
    assert Flush(u, 0) == [];
    assert Flush(u, 6) == [DigitAt(u, 0)];
    assert Flush(u, 12) == [DigitAt(u, 6)] + Flush(u, 6);
  }

  lemma FlushDigits20(u: Word)
    ensures Flush(u, 20) == [Digit(Bits(u, 14)), Digit(Bits(u, 8)), Digit(Bits(u, 2))]
  {
    assert Flush(u, 2) == [];
    assert Flush(u, 8) == [DigitAt(u, 2)];
    assert Flush(u, 14) == [DigitAt(u, 8)] + Flush(u, 8);
  }

  lemma DecodeThreeDigits(x: Byte, v: Byte, w: Byte, rest: seq<Byte>, d: Decoder)
    requires x < 64 && v < 64 && w < 64 && d.shifted && d.bits < 16
    ensures var (units0, d0) := StepDigit(x, d);
            var (units1, d1) := StepDigit(v, d0);
            var (units2, d2) := StepDigit(w, d1);
            DecodeFrom([Digit(x), Digit(v), Digit(w)] + rest, d) == Prepend(units0 + (units1 + units2), DecodeFrom(rest, d2))
  {
    var (units0, d0) := StepDigit(x, d);
    var (units1, d1) := StepDigit(v, d0);
    var (units2, d2) := StepDigit(w, d1);
    assert [Digit(x), Digit(v), Digit(w)] + rest == [Digit(x)] + ([Digit(v), Digit(w)] + rest);
    DecodeDigit(x, [Digit(v), Digit(w)] + rest, d);
    DecodeTwoDigits(v, w, rest, d0);
    PrependTwice(units0, units1 + units2, DecodeFrom(rest, d2));
  }

  /** From a unit boundary: two digits, twelve bits of the new unit. */
  lemma BitsAt0(u0: Word, c: Unit, v: Word)
    ensures var u := PushUnit(u0, c);
            Shares(u, PushDigit(PushDigit(v, Bits(u, 10)), Bits(u, 4)), c, 4)
  {
  }

  /** Twelve bits of `p` received, four to come: three digits complete `p` and bring fourteen bits of `c`. */
  lemma BitsAt4(u0: Word, c: Unit, v: Word, p: Unit)
    requires Shares(u0, v, p, 4)
    ensures var u := PushUnit(u0, c);
            var v1 := PushDigit(v, Bits(u, 14));
            UnitAt(v1, 2) == p && Shares(u, PushDigit(PushDigit(v1, Bits(u, 8)), Bits(u, 2)), c, 2)
  {
  }

  /** Fourteen bits of `p` received, two to come: three digits complete both `p` and `c`. */
  lemma BitsAt2(u0: Word, c: Unit, v: Word, p: Unit)
    requires Shares(u0, v, p, 2)
    ensures UnitAt(PushDigit(v, Bits(PushUnit(u0, c), 12)), 4) == p
  {
  }

  lemma LastBitsAt2(u: Word, c: Unit, v: Word)
    requires u & 0xFFFF == c as Word && v & 0xF == (c >> 12) as Word
    ensures UnitAt(PushDigit(PushDigit(v, Bits(u, 6)), Bits(u, 0)), 0) == c
  {
  }

  lemma NextBitsAt2(u0: Word, c: Unit, v: Word)
    ensures PushUnit(u0, c) & 0xFFFF == c as Word
    ensures PushDigit(v, Bits(PushUnit(u0, c), 12)) & 0xF == (c >> 12) as Word
  {
  }

  lemma DecodeAt0(u0: Word, c: Unit, v: Word, rest: seq<Byte>) returns (v': Word)
    ensures Shares(PushUnit(u0, c), v', c, 4)
    ensures DecodeFrom(Flush(PushUnit(u0, c), 16) + rest, Decoder(true, 0, v))
         == Prepend([], DecodeFrom(rest, Decoder(true, 12, v')))
  {
    var u := PushUnit(u0, c);
    FlushDigits16(u);
    BitsAt0(u0, c, v);
    DecodeTwoDigits(Bits(u, 10), Bits(u, 4), rest, Decoder(true, 0, v));
    v' := PushDigit(PushDigit(v, Bits(u, 10)), Bits(u, 4));
  }

  lemma DecodeAt4(u0: Word, c: Unit, v: Word, p: Unit, rest: seq<Byte>) returns (v': Word)
    requires Shares(u0, v, p, 4)
    ensures Shares(PushUnit(u0, c), v', c, 2)
    ensures DecodeFrom(Flush(PushUnit(u0, c), 20) + rest, Decoder(true, 12, v))
         == Prepend([p], DecodeFrom(rest, Decoder(true, 14, v')))
  {
    var u := PushUnit(u0, c);
    FlushDigits20(u);
    BitsAt4(u0, c, v, p);
    DecodeThreeDigits(Bits(u, 14), Bits(u, 8), Bits(u, 2), rest, Decoder(true, 12, v));
    v' := PushDigit(PushDigit(PushDigit(v, Bits(u, 14)), Bits(u, 8)), Bits(u, 2));
    assert [p] + ([] + []) == [p];
  }

  /** Three digits on top of fourteen bits: two units, and nothing held back. */
  lemma DecodeDigitsAt2(x: Byte, y: Byte, z: Byte, v: Word, rest: seq<Byte>)
    requires x < 64 && y < 64 && z < 64
    ensures var v1 := PushDigit(v, x);
            var v3 := PushDigit(PushDigit(v1, y), z);
            DecodeFrom([Digit(x), Digit(y), Digit(z)] + rest, Decoder(true, 14, v))
              == Prepend([UnitAt(v1, 4), UnitAt(v3, 0)], DecodeFrom(rest, Decoder(true, 0, v3)))
  {
    var v1 := PushDigit(v, x);
    var v2 := PushDigit(v1, y);
    var v3 := PushDigit(v2, z);
    DecodeThreeDigits(x, y, z, rest, Decoder(true, 14, v));
    assert StepDigit(x, Decoder(true, 14, v)) == ([UnitAt(v1, 4)], Decoder(true, 4, v1));
    assert StepDigit(y, Decoder(true, 4, v1)) == ([], Decoder(true, 10, v2));
    assert StepDigit(z, Decoder(true, 10, v2)) == ([UnitAt(v3, 0)], Decoder(true, 0, v3));
    EmptyLeft([UnitAt(v3, 0)]);
    assert [UnitAt(v1, 4)] + [UnitAt(v3, 0)] == [UnitAt(v1, 4), UnitAt(v3, 0)];
  }

  lemma SecondUnitAt2(u0: Word, c: Unit, v: Word)
    ensures var u := PushUnit(u0, c);
            UnitAt(PushDigit(PushDigit(PushDigit(v, Bits(u, 12)), Bits(u, 6)), Bits(u, 0)), 0) == c
  {
    NextBitsAt2(u0, c, v);
    LastBitsAt2(PushUnit(u0, c), c, PushDigit(v, Bits(PushUnit(u0, c), 12)));
  }

  lemma DecodePairAt2(x: Byte, y: Byte, z: Byte, v: Word, p: Unit, c: Unit, rest: seq<Byte>)
    requires x < 64 && y < 64 && z < 64
    requires UnitAt(PushDigit(v, x), 4) == p && UnitAt(PushDigit(PushDigit(PushDigit(v, x), y), z), 0) == c
    ensures DecodeFrom([Digit(x), Digit(y), Digit(z)] + rest, Decoder(true, 14, v))
         == Prepend([p, c], DecodeFrom(rest, Decoder(true, 0, PushDigit(PushDigit(PushDigit(v, x), y), z))))
  {
    DecodeDigitsAt2(x, y, z, v, rest);
  }

  lemma DecodeAt2(u0: Word, c: Unit, v: Word, p: Unit, rest: seq<Byte>) returns (v': Word)
    requires Shares(u0, v, p, 2)
    ensures DecodeFrom(Flush(PushUnit(u0, c), 18) + rest, Decoder(true, 14, v))
         == Prepend([p, c], DecodeFrom(rest, Decoder(true, 0, v')))
  {
    var u := PushUnit(u0, c);
    v' := PushDigit(PushDigit(PushDigit(v, Bits(u, 12)), Bits(u, 6)), Bits(u, 0));
    FlushDigits18(u);
    BitsAt2(u0, c, v, p);
    SecondUnitAt2(u0, c, v);
    DecodePairAt2(Bits(u, 12), Bits(u, 6), Bits(u, 0), v, p, c, rest);
  }

  /** The digits of one encoded unit complete the pending unit, and perhaps the new one. */
  lemma DecodeUnit(e: Encoder, c: Unit, d: Decoder, pending: seq<Unit>, rest: seq<Byte>)
    returns (d': Decoder, pending': seq<Unit>, units: seq<Unit>)
    requires e.shifted && d.bits < 16 && e.bits < 6 && InStep(e, d, pending)
    ensures d'.bits < 16 && InStep(Encoder(true, Left(e.bits + 16), PushUnit(e.u, c)), d', pending')
    ensures units + pending' == pending + [c]
    ensures DecodeFrom(Flush(PushUnit(e.u, c), e.bits + 16) + rest, d) == Prepend(units, DecodeFrom(rest, d'))
  {
    LeftValues();
    if e.bits == 0 {
      var v' := DecodeAt0(e.u, c, d.v, rest);
      d', pending', units := Decoder(true, 12, v'), [c], [];
    } else if e.bits == 4 {
      var v' := DecodeAt4(e.u, c, d.v, pending[0], rest);
      d', pending', units := Decoder(true, 14, v'), [c], pending;
      assert pending == [pending[0]];
    } else {
      var v' := DecodeAt2(e.u, c, d.v, pending[0], rest);
      d', pending', units := Decoder(true, 0, v'), [], pending + [c];
      assert units == [pending[0], c];
    }
  }

  lemma LeftValues()
    ensures Left(16) == 4 && Left(18) == 0 && Left(20) == 2
  {
    assert Left(10) == 4 && Left(12) == 0 && Left(14) == 2;
  }

  ghost predicate Completes(u: Word, v: Word, p: Unit, k: Word)
    requires k == 2 || k == 4
  {
    UnitAt(PushDigit(v, Pad(u, k)), 6 - k) == p
  }

  /** The padded last digit of a run completes the pending unit. */
  lemma PaddedBits2(u: Word, v: Word, p: Unit)
    requires Shares(u, v, p, 2)
    ensures Completes(u, v, p, 2)
  {
  }

  lemma PaddedBits4(u: Word, v: Word, p: Unit)
    requires Shares(u, v, p, 4)
    ensures Completes(u, v, p, 4)
  {
  }

  lemma DecodeClose(e: Encoder, d: Decoder, pending: seq<Unit>, rest: seq<Byte>)
    requires e.shifted && d.bits < 16 && e.bits < 6 && InStep(e, d, pending)
    ensures DecodeFrom(Close(e) + rest, d) == Prepend(pending, DecodeFrom(rest, Decoder(false, 0, 0)))
  {
    var tail := DecodeFrom(rest, Decoder(false, 0, 0));
    assert ([HYPHEN] + rest)[1..] == rest;
    if e.bits == 0 {
      assert Close(e) == [HYPHEN];
      assert tail.Some? ==> [] + tail.value == tail.value;
    } else {
      if e.bits == 2 {
        PaddedBits2(e.u, d.v, pending[0]);
      } else {
        PaddedBits4(e.u, d.v, pending[0]);
      }
      var w := Pad(e.u, e.bits);
      assert Close(e) + rest == [Digit(w)] + ([HYPHEN] + rest);
      DecodeDigit(w, [HYPHEN] + rest, d);
      assert StepDigit(w, d).0 == pending;
    }
  }

  function AsUnits(bytes: seq<Byte>): (units: seq<Unit>)
    ensures |units| == |bytes| && forall i :: 0 <= i < |units| ==> units[i] < 0x100
  {
    if bytes == [] then [] else [bytes[0] as Unit] + AsUnits(bytes[1..])
  }

  lemma {:induction false} DecodeUnshifted(bytes: seq<Byte>, rest: seq<Byte>, d: Decoder)
    requires !d.shifted && d.bits < 16 && AMPERSAND !in bytes
    ensures DecodeFrom(bytes + rest, d) == Prepend(AsUnits(bytes), DecodeFrom(rest, d))
  {
    var tail := DecodeFrom(rest, d);
    if bytes == [] {
      assert [] + rest == rest;
      assert tail.Some? ==> AsUnits([]) + tail.value == tail.value;
    } else {
      assert (bytes + rest)[1..] == bytes[1..] + rest;
      DecodeUnshifted(bytes[1..], rest, d);
      assert AsUnits(bytes) == [bytes[0] as Unit] + AsUnits(bytes[1..]);
      PrependTwice([bytes[0] as Unit], AsUnits(bytes[1..]), tail);
    }
  }

  /** The units a character comes back as: its low sixteen bits, except that a character beyond
      them whose low bits look printable was pushed as UTF-8 and comes back byte by byte. */
  function UnitsOf(c: Scalar): seq<Unit> {
    if c >= 0x1_0000 && Direct(c) && Low(c) != 0x26 then AsUnits(Utf8(c)) else [Low(c)]
  }

  function Units(text: seq<Scalar>): seq<Unit> {
    if text == [] then [] else UnitsOf(text[0]) + Units(text[1..])
  }

  lemma DecodeName(c: Scalar, rest: seq<Byte>, d: Decoder)
    requires Direct(c) && !d.shifted && d.bits < 16
    ensures var name := if Low(c) == 0x26 then [AMPERSAND, HYPHEN] else Utf8(c);
            DecodeFrom(name + rest, d) == Prepend(UnitsOf(c), DecodeFrom(rest, d))
  {
    if Low(c) == 0x26 {
      assert ([AMPERSAND, HYPHEN] + rest)[2..] == rest;
    } else {
      DecodeUnshifted(Utf8(c), rest, d);
      if c < 0x80 {
        assert AsUnits(Utf8(c)) == [Low(c)];
      }
    }
  }

  lemma DecodeDirect(c: Scalar, e: Encoder, d: Decoder, pending: seq<Unit>, rest: seq<Byte>) returns (d': Decoder)
    requires Direct(c) && d.bits < 16 && e.bits < 6 && InStep(e, d, pending)
    ensures d'.bits < 16 && InStep(StepState(c, e), d', [])
    ensures DecodeFrom(StepOutput(c, e) + rest, d) == Prepend(pending + UnitsOf(c), DecodeFrom(rest, d'))
  {
    var name := if Low(c) == 0x26 then [AMPERSAND, HYPHEN] else Utf8(c);
    assert StepOutput(c, e) == Close(e) + name;
    Associative(Close(e), name, rest);
    d' := if e.shifted then Decoder(false, 0, 0) else d;
    DecodeName(c, rest, d');
    if e.shifted {
      DecodeClose(e, d, pending, name + rest);
      PrependTwice(pending, UnitsOf(c), DecodeFrom(rest, d'));
    } else {
      assert Close(e) + (name + rest) == name + rest;
      assert pending + UnitsOf(c) == UnitsOf(c);
    }
  }

  lemma DecodeEncoded(c: Scalar, e: Encoder, d: Decoder, pending: seq<Unit>, rest: seq<Byte>)
    returns (d': Decoder, pending': seq<Unit>, units: seq<Unit>)
    requires !Direct(c) && d.bits < 16 && e.bits < 6 && InStep(e, d, pending)
    ensures d'.bits < 16 && InStep(StepState(c, e), d', pending')
    ensures units + pending' == pending + [Low(c)]
    ensures DecodeFrom(StepOutput(c, e) + rest, d) == Prepend(units, DecodeFrom(rest, d'))
  {
    var e1, d1 := e.(shifted := true), d.(shifted := true);
    var digits := Flush(PushUnit(e.u, Low(c)), e.bits + 16);
    d', pending', units := DecodeUnit(e1, Low(c), d1, pending, rest);
    if e.shifted {
      assert StepOutput(c, e) == digits;
    } else {
      FlushDigits16(PushUnit(e.u, Low(c)));
      assert digits[0] != HYPHEN;
      assert StepOutput(c, e) == [AMPERSAND] + digits;
      Ampersand(digits + rest, d);
      Associative([AMPERSAND], digits, rest);
    }
  }

  lemma Ampersand(bytes: seq<Byte>, d: Decoder)
    requires d.bits < 16 && !d.shifted && |bytes| > 0 && bytes[0] != HYPHEN
    ensures DecodeFrom([AMPERSAND] + bytes, d) == DecodeFrom(bytes, d.(shifted := true))
  {
    assert ([AMPERSAND] + bytes)[1..] == bytes;
  }

  /** One turn of the encoder's loop as the decoder sees it. */
  lemma DecodeStep(c: Scalar, e: Encoder, d: Decoder, pending: seq<Unit>, rest: seq<Byte>)
    returns (d': Decoder, pending': seq<Unit>, units: seq<Unit>)
    requires d.bits < 16 && e.bits < 6 && InStep(e, d, pending)
    ensures d'.bits < 16 && InStep(StepState(c, e), d', pending')
    ensures units + pending' == pending + UnitsOf(c)
    ensures DecodeFrom(StepOutput(c, e) + rest, d) == Prepend(units, DecodeFrom(rest, d'))
  {
    if Direct(c) {
      d' := DecodeDirect(c, e, d, pending, rest);
      pending', units := [], pending + UnitsOf(c);
    } else {
      d', pending', units := DecodeEncoded(c, e, d, pending, rest);
    }
  }

  lemma {:induction false} DecodesUnits(text: seq<Scalar>, e: Encoder, d: Decoder, pending: seq<Unit>)
    requires d.bits < 16 && e.bits < 6 && InStep(e, d, pending)
    ensures DecodeFrom(EncodeFrom(text, e), d) == Some(pending + Units(text))
  {
    if text == [] {
      if e.shifted {
        DecodeClose(e, d, pending, []);
        assert Close(e) + [] == Close(e);
      }
    } else {
      var rest := EncodeFrom(text[1..], StepState(text[0], e));
      var d', pending', units := DecodeStep(text[0], e, d, pending, rest);
      DecodesUnits(text[1..], StepState(text[0], e), d', pending');
      Associative(units, pending', Units(text[1..]));
      Associative(pending, UnitsOf(text[0]), Units(text[1..]));
    }
  }

  /** No bit is lost or invented at any shift boundary: the decoder gets the text's units back. */
  lemma DecodeEncode(text: seq<Scalar>)
    ensures Decode(Encode(text)) == FromUtf16(Units(text))
  {
    DecodesUnits(text, Encoder(false, 0, 0), Decoder(false, 0, 0), []);
    assert [] + Units(text) == Units(text);
  }

  // ----- Exactly which names survive -----

  predicate SixteenBit(text: seq<Scalar>) {
    forall i :: 0 <= i < |text| ==> text[i] < 0x1_0000
  }

  lemma LowOfSixteenBit(c: Scalar)
    requires c < 0x1_0000
    ensures Low(c) as Word == c && !IsHigh(Low(c)) && !IsLow(Low(c))
  {
  }

  lemma {:induction false} SixteenBitUnits(text: seq<Scalar>)
    requires SixteenBit(text)
    ensures FromUtf16(Units(text)) == Some(text)
  {
    if text != [] {
      SixteenBitUnits(text[1..]);
      LowOfSixteenBit(text[0]);
      assert Units(text)[1..] == Units(text[1..]);
      assert [text[0]] + text[1..] == text;
    }
  }

  function Beyond(text: seq<Scalar>): nat {
    if text == [] then 0 else (if text[0] >= 0x1_0000 then 1 else 0) + Beyond(text[1..])
  }

  function Surrogates(units: seq<Unit>): nat {
    if units == [] then 0 else (if IsHigh(units[0]) || IsLow(units[0]) then 1 else 0) + Surrogates(units[1..])
  }

  lemma {:induction false} SurrogatesSum(a: seq<Unit>, b: seq<Unit>)
    ensures Surrogates(a + b) == Surrogates(a) + Surrogates(b)
  {
    if a == [] {
      assert a + b == b;
    } else {
      assert (a + b)[1..] == a[1..] + b;
      SurrogatesSum(a[1..], b);
    }
  }

  /** Every character beyond sixteen bits costs two surrogates ... */
  lemma {:induction false} SurrogatesOfDecoded(units: seq<Unit>)
    requires FromUtf16(units).Some?
    ensures Surrogates(units) == 2 * Beyond(FromUtf16(units).value)
  {
    if units != [] {
      var text := FromUtf16(units).value;
      if IsHigh(units[0]) {
        SurrogatesOfDecoded(units[2..]);
        assert units[1..][1..] == units[2..];
        assert text[1..] == FromUtf16(units[2..]).value;
        assert text[0] >= 0x1_0000;
      } else {
        SurrogatesOfDecoded(units[1..]);
        assert text[1..] == FromUtf16(units[1..]).value;
        assert text[0] < 0x1_0000;
      }
    }
  }

  lemma SurrogatesOfOne(c: Scalar)
    ensures Surrogates(UnitsOf(c)) <= if c >= 0x1_0000 then 1 else 0
  {
    if |UnitsOf(c)| == 1 {
      assert Surrogates(UnitsOf(c)[1..]) == 0;
    } else {
      NoSurrogates(UnitsOf(c));
    }
  }

  lemma {:induction false} NoSurrogates(units: seq<Unit>)
    requires forall i :: 0 <= i < |units| ==> units[i] < 0x100
    ensures Surrogates(units) == 0
  {
    if units != [] {
      NoSurrogates(units[1..]);
    }
  }

  /** ... but the encoder leaves at most one unit that could be a surrogate. */
  lemma {:induction false} SurrogatesOfUnits(text: seq<Scalar>)
    ensures Surrogates(Units(text)) <= Beyond(text)
  {
    if text != [] {
      SurrogatesOfUnits(text[1..]);
      SurrogatesOfOne(text[0]);
      SurrogatesSum(UnitsOf(text[0]), Units(text[1..]));
    }
  }

  lemma {:induction false} BeyondIsZero(text: seq<Scalar>)
    ensures Beyond(text) == 0 <==> SixteenBit(text)
  {
    if text != [] {
      BeyondIsZero(text[1..]);
      assert SixteenBit(text) <==> text[0] < 0x1_0000 && SixteenBit(text[1..]) by {
        assert forall i :: 0 < i < |text| ==> text[i] == text[1..][i - 1];
      }
    }
  }

  /** A name survives encoding and decoding if and only if every character fits sixteen bits. */
  lemma RoundTrip(text: seq<Scalar>)
    ensures Decode(Encode(text)) == Some(text) <==> SixteenBit(text)
  {
    DecodeEncode(text);
    if SixteenBit(text) {
      SixteenBitUnits(text);
    } else if FromUtf16(Units(text)) == Some(text) {
      SurrogatesOfDecoded(Units(text));
      SurrogatesOfUnits(text);
      BeyondIsZero(text);
    }
  }

  /** U+1F600 comes back as U+F600. */
  lemma BeyondSixteenBits()
    ensures Decode(Encode([0x1F600])) == Some([0xF600])
  {
    var text: seq<Scalar>, none: seq<Scalar>, noUnits: seq<Unit> := [0x1F600], [], [];
    DecodeEncode(text);
    assert text[1..] == none;
    assert Low(0x1F600) == 0xF600;
    assert Units(text) == [0xF600];
    assert Units(text)[1..] == noUnits;
    assert FromUtf16(noUnits) == Some([]);
    assert [0xF600] + none == [0xF600];
  }

  // ----- The encoding is printable -----

  predicate Printable(bytes: seq<Byte>) {
    forall i :: 0 <= i < |bytes| ==> 0x20 <= bytes[i] < 0x7F
  }

  lemma {:induction false} FlushPrintable(u: Word, bits: Word)
    requires bits <= 32
    ensures Printable(Flush(u, bits))
    decreases bits
  {
    if bits >= 6 {
      FlushPrintable(u, bits - 6);
    }
  }

  lemma StepPrintable(c: Scalar, e: Encoder)
    requires e.bits < 6 && c < 0x1_0000
    ensures Printable(StepOutput(c, e))
  {
    if Direct(c) {
      assert Printable(Close(e));
      assert Low(c) as Word == c;
    } else {
      FlushPrintable(PushUnit(e.u, Low(c)), e.bits + 16);
    }
  }

  lemma {:induction false} EncodeFromPrintable(text: seq<Scalar>, e: Encoder)
    requires e.bits < 6 && SixteenBit(text)
    ensures Printable(EncodeFrom(text, e))
  {
    if text != [] {
      StepPrintable(text[0], e);
      EncodeFromPrintable(text[1..], StepState(text[0], e));
    }
  }

  lemma EncodePrintable(text: seq<Scalar>)
    requires SixteenBit(text)
    ensures Printable(Encode(text))
  {
    EncodeFromPrintable(text, Encoder(false, 0, 0));
  }

  // ----- What is written for each character -----

  const UPPER := "ABCDEFGHIJKLMNOPQRSTUVWXYZ"
  const LOWER := "abcdefghijklmnopqrstuvwxyz"
  const OTHERS := "0123456789+,"

  lemma UpperAt(i: nat)
    requires i < 26
    ensures UPPER[i] as int == 65 + i
  {
  }

  lemma LowerAt(i: nat)
    requires i < 26
    ensures LOWER[i] as int == 97 + i
  {
  }

  /** The six-bit digits are the upper-case letters, the lower-case letters and the others, in this order. */
  lemma DigitsAre(v: Byte)
    requires v < 64
    ensures v < 26 ==> Digit(v) as int == UPPER[v as int] as int
    ensures 26 <= v < 52 ==> Digit(v) as int == LOWER[v as int - 26] as int
    ensures 52 <= v ==> Digit(v) as int == OTHERS[v as int - 52] as int
  {
    if v < 26 {
      UpperAt(v as int);
    } else if v < 52 {
      LowerAt(v as int - 26);
    }
  }

  /** The encoders differ at most in stale bits. */
  predicate SameBits(e: Encoder, f: Encoder) {
    && e.shifted == f.shifted && e.bits == f.bits
    && (e.bits == 0 || (e.bits == 2 && e.u & 0x3 == f.u & 0x3) || (e.bits == 4 && e.u & 0xF == f.u & 0xF))
  }

  lemma SameClose(e: Encoder, f: Encoder)
    requires SameBits(e, f)
    ensures Close(e) == Close(f)
  {
    if e.bits == 2 {
      assert (e.u << 4) & 0x3F == (f.u << 4) & 0x3F;
    } else if e.bits == 4 {
      assert (e.u << 2) & 0x3F == (f.u << 2) & 0x3F;
    }
  }

  lemma OwnDigits16(u: Word, ch: Word)
    requires ch < 0x1_0000
    ensures (((u << 16) | ch) >> 10) & 0x3F == (ch >> 10) & 0x3F
    ensures (((u << 16) | ch) >> 4) & 0x3F == (ch >> 4) & 0x3F
    ensures ((u << 16) | ch) & 0xF == ch & 0xF
  {
  }

  lemma SameDigits16(u: Word, w: Word, ch: Unit)
    ensures Flush(PushUnit(u, ch), 16) == Flush(PushUnit(w, ch), 16)
    ensures PushUnit(u, ch) & 0xF == PushUnit(w, ch) & 0xF
  {
    FlushDigits16(PushUnit(u, ch));
    FlushDigits16(PushUnit(w, ch));
    OwnDigits16(u, ch as Word);
    OwnDigits16(w, ch as Word);
  }

  /** Six bits that reach two bits into what was there before. */
  lemma TopDigitAt2(u: Word, ch: Word)
    requires ch < 0x1_0000
    ensures (((u << 16) | ch) >> 12) & 0x3F == ((u & 0x3) << 4) | (ch >> 12)
  {
  }

  /** Six bits that reach four bits into what was there before. */
  lemma TopDigitAt4(u: Word, ch: Word)
    requires ch < 0x1_0000
    ensures (((u << 16) | ch) >> 14) & 0x3F == ((u & 0xF) << 2) | (ch >> 14)
  {
  }

  lemma OwnDigits18(u: Word, ch: Word)
    requires ch < 0x1_0000
    ensures (((u << 16) | ch) >> 6) & 0x3F == (ch >> 6) & 0x3F
    ensures (((u << 16) | ch) >> 0) & 0x3F == ch & 0x3F
  {
  }

  lemma OwnDigits20(u: Word, ch: Word)
    requires ch < 0x1_0000
    ensures (((u << 16) | ch) >> 8) & 0x3F == (ch >> 8) & 0x3F
    ensures (((u << 16) | ch) >> 2) & 0x3F == (ch >> 2) & 0x3F
    ensures ((u << 16) | ch) & 0x3 == ch & 0x3
  {
  }

  lemma SameDigits18(u: Word, w: Word, ch: Unit)
    requires u & 0x3 == w & 0x3
    ensures Flush(PushUnit(u, ch), 18) == Flush(PushUnit(w, ch), 18)
  {
    FlushDigits18(PushUnit(u, ch));
    FlushDigits18(PushUnit(w, ch));
    TopDigitAt2(u, ch as Word);
    TopDigitAt2(w, ch as Word);
    OwnDigits18(u, ch as Word);
    OwnDigits18(w, ch as Word);
  }

  lemma SameDigits20(u: Word, w: Word, ch: Unit)
    requires u & 0xF == w & 0xF
    ensures Flush(PushUnit(u, ch), 20) == Flush(PushUnit(w, ch), 20)
    ensures PushUnit(u, ch) & 0x3 == PushUnit(w, ch) & 0x3
  {
    FlushDigits20(PushUnit(u, ch));
    FlushDigits20(PushUnit(w, ch));
    TopDigitAt4(u, ch as Word);
    TopDigitAt4(w, ch as Word);
    OwnDigits20(u, ch as Word);
    OwnDigits20(w, ch as Word);
  }

  lemma LeftOver()
    ensures Left(16) == 4 && Left(18) == 0 && Left(20) == 2
  {
    assert Left(4) == 4 && Left(10) == 4 && Left(16) == 4;
    assert Left(0) == 0 && Left(6) == 0 && Left(12) == 0;
    assert Left(2) == 2 && Left(8) == 2 && Left(14) == 2;
  }

  lemma SameStep(c: Scalar, e: Encoder, f: Encoder)
    requires SameBits(e, f)
    ensures StepOutput(c, e) == StepOutput(c, f) && SameBits(StepState(c, e), StepState(c, f))
  {
    SameClose(e, f);
    LeftOver();
    if e.bits == 0 {
      SameDigits16(e.u, f.u, Low(c));
    } else if e.bits == 2 {
      SameDigits18(e.u, f.u, Low(c));
    } else {
      SameDigits20(e.u, f.u, Low(c));
    }
  }

  /** Stale bits never show. */
  lemma {:induction false} SameOutput(text: seq<Scalar>, e: Encoder, f: Encoder)
    requires SameBits(e, f)
    ensures EncodeFrom(text, e) == EncodeFrom(text, f)
  {
    if text == [] {
      SameClose(e, f);
    } else {
      SameStep(text[0], e, f);
      SameOutput(text[1..], StepState(text[0], e), StepState(text[0], f));
    }
  }

  /** What a direct character is written as, wherever it stands. */
  function Written(c: Scalar): seq<Byte>
    requires Direct(c)
  {
    if Low(c) == 0x26 then [AMPERSAND, HYPHEN] else Utf8(c)
  }

  lemma DirectStep(c: Scalar, b: seq<Scalar>, e: Encoder)
    requires Direct(c) && e.bits < 6 && (!e.shifted ==> e.bits == 0)
    ensures EncodeFrom([c] + b, e) == Close(e) + Written(c) + Encode(b)
  {
    assert ([c] + b)[1..] == b;
    var next := StepState(c, e);
    assert EncodeFrom([c] + b, e) == StepOutput(c, e) + EncodeFrom(b, next);
    SameOutput(b, next, Encoder(false, 0, 0));
  }

  lemma {:induction false} DirectApart(a: seq<Scalar>, c: Scalar, b: seq<Scalar>, e: Encoder)
    requires Direct(c) && e.bits < 6 && (!e.shifted ==> e.bits == 0)
    ensures EncodeFrom(a + ([c] + b), e) == EncodeFrom(a, e) + Written(c) + Encode(b)
    decreases |a|
  {
    DirectStep(c, b, e);
    if a == [] {
      EmptyLeft([c] + b);
    } else {
      var first, rest := a[0], a[1..];
      var next := StepState(first, e);
      assert (a + ([c] + b))[1..] == rest + ([c] + b);
      assert EncodeFrom(a + ([c] + b), e) == StepOutput(first, e) + EncodeFrom(rest + ([c] + b), next);
      DirectApart(rest, c, b, next);
      Append3(StepOutput(first, e), EncodeFrom(rest, next), Written(c), Encode(b));
    }
  }

  /** Printable ASCII characters other than `&` stand for themselves, wherever they stand. */
  lemma PrintableStandsForItself(a: seq<Scalar>, c: Scalar, b: seq<Scalar>)
    requires 0x20 <= c <= 0x7E && c != 0x26
    ensures Encode(a + ([c] + b)) == Encode(a) + [c as Byte] + Encode(b)
  {
    DirectApart(a, c, b, Encoder(false, 0, 0));
    LowIs(c);
  }

  /** `&` is written as `&-`, wherever it stands. */
  lemma AmpersandIsEscaped(a: seq<Scalar>, b: seq<Scalar>)
    ensures Encode(a + ([0x26] + b)) == Encode(a) + [0x26, 0x2D] + Encode(b)
  {
    var c: Scalar := 0x26;
    assert Low(c) == 0x26;
    DirectApart(a, c, b, Encoder(false, 0, 0));
  }

  lemma {:induction false} PlainText(text: seq<Scalar>)
    requires forall i :: 0 <= i < |text| ==> 0x20 <= text[i] <= 0x7E && text[i] != 0x26
    ensures |Encode(text)| == |text|
    ensures forall i :: 0 <= i < |text| ==> Encode(text)[i] as Word == text[i]
    decreases |text|
  {
    if text != [] {
      var none: seq<Scalar> := [];
      PrintableStandsForItself(none, text[0], text[1..]);
      PlainText(text[1..]);
      assert none + ([text[0]] + text[1..]) == text;
      assert Encode(none) == [];
      PlainIndex(text, text[0] as Byte, Encode(text[1..]), Encode(text));
    }
  }

  lemma PlainIndex(text: seq<Scalar>, first: Byte, rest: seq<Byte>, all: seq<Byte>)
    requires text != [] && first as Word == text[0] && |rest| == |text| - 1 && all == [] + [first] + rest
    requires forall i :: 0 <= i < |rest| ==> rest[i] as Word == text[1..][i]
    ensures |all| == |text| && forall i :: 0 <= i < |text| ==> all[i] as Word == text[i]
  {
    forall i | 0 <= i < |text| ensures all[i] as Word == text[i] {
      if i > 0 {
        assert all[i] == rest[i - 1] && text[i] == text[1..][i - 1];
      }
    }
  }

  lemma LowIs(c: Word)
    requires c < 0x1_0000
    ensures ((c & 0xFFFF) as Unit) as Word == c && ((0 << 16) | c) == c
  {
  }

  lemma ShiftedAlone(c: Scalar, u: Word, digits: seq<Byte>)
    requires !Direct(c) && u == PushUnit(0, Low(c)) && digits == Flush(u, 16)
    ensures Encode([c]) == [AMPERSAND] + digits + [Padded(u, 4), HYPHEN]
  {
    LeftOver();
    var none: seq<Scalar> := [];
    assert [c][1..] == none;
    assert EncodeFrom(none, Encoder(true, 4, u)) == [Padded(u, 4)] + [HYPHEN];
    assert StepOutput(c, Encoder(false, 0, 0)) == [AMPERSAND] + digits;
  }

  lemma NotDirect(c: Scalar)
    requires c < 0x20 || 0x7F <= c < 0x1_0000
    ensures !Direct(c) && PushUnit(0, Low(c)) == c
  {
    LowIs(c);
  }

  /** The digits of a lone unit, as bits of it. */
  lemma LoneDigits(c: Word)
    ensures Flush(c, 16) == [Digit(((c >> 10) & 0x3F) as Byte), Digit(((c >> 4) & 0x3F) as Byte)]
    ensures Padded(c, 4) == Digit(((c << 2) & 0x3F) as Byte)
  {
    FlushDigits16(c);
  }

  lemma Join(open: Byte, x: Byte, y: Byte, z: Byte, close: Byte)
    ensures [open] + [x, y] + [z, close] == [open, x, y, z, close]
  {
  }

  /** Any other 16-bit character, by itself, is its bits in three digits between `&` and `-`. */
  lemma OtherIsShifted(c: Scalar)
    requires c < 0x20 || 0x7F <= c < 0x1_0000
    ensures Encode([c]) == [0x26, Digit(((c >> 10) & 0x3F) as Byte), Digit(((c >> 4) & 0x3F) as Byte),
                            Digit(((c << 2) & 0x3F) as Byte), 0x2D]
  {
    NotDirect(c);
    LoneDigits(c);
    ShiftedAlone(c, c, Flush(c, 16));
    Join(0x26, Digit(((c >> 10) & 0x3F) as Byte), Digit(((c >> 4) & 0x3F) as Byte), Digit(((c << 2) & 0x3F) as Byte), 0x2D);
  }

  // ----- What is refused -----

  /** Only the 64 digits have a value. */
  lemma RankIff(b: Byte)
    ensures Rank(b) != 0xFF <==> Rank(b) < 64
    ensures Rank(b) < 64 ==> Digit(Rank(b)) == b
  {
  }

  /** A shifted run with a byte that is no digit is refused. */
  lemma {:induction false} BadDigitIsRefused(run: seq<Byte>, rest: seq<Byte>, bad: nat, d: Decoder)
    requires bad < |run| && d.shifted && d.bits < 16
    requires forall i :: 0 <= i < |run| ==> run[i] != 0x2D
    requires forall v: Byte :: v < 64 ==> Digit(v) != run[bad]
    ensures DecodeFrom(run + rest, d) == None
  {
    assert (run + rest)[0] == run[0] && (run + rest)[1..] == run[1..] + rest;
    if bad == 0 {
      RankIff(run[0]);
    } else if run[0] <= 127 && Rank(run[0]) != 0xFF {
      var v, bits := PushDigit(d.v, Rank(run[0])), d.bits + 6;
      BadDigitIsRefused(run[1..], rest, bad - 1, Decoder(true, if bits >= 16 then bits - 16 else bits, v));
    }
  }

  /** The UTF-16 form of a character (section 2.1 of RFC 2781). */
  function Utf16(c: Scalar): (units: seq<Unit>)
    ensures units != []
  {
    if c < 0x1_0000 then [c as Unit]
    else [(0xD800 + ((c - 0x1_0000) >> 10)) as Unit, (0xDC00 + ((c - 0x1_0000) & 0x3FF)) as Unit]
  }

  function Utf16Text(text: seq<Scalar>): seq<Unit> {
    if text == [] then [] else Utf16(text[0]) + Utf16Text(text[1..])
  }

  lemma PairIs(c: Word)
    requires 0x1_0000 <= c < 0x11_0000
    ensures ((c - 0x1_0000) >> 10) < 0x400 && ((c - 0x1_0000) & 0x3FF) < 0x400
    ensures 0x1_0000 + (((c - 0x1_0000) >> 10) << 10) + ((c - 0x1_0000) & 0x3FF) == c
  {
  }

  lemma PairOf(h: Unit, l: Unit)
    requires IsHigh(h) && IsLow(l)
    ensures Utf16(Pair(h, l)) == [h, l]
  {
    var x: Word, y: Word := (h - 0xD800) as Word, (l - 0xDC00) as Word;
    PairParts(x, y);
  }

  lemma PairParts(x: Word, y: Word)
    requires x < 0x400 && y < 0x400
    ensures ((x << 10) + y) >> 10 == x && ((x << 10) + y) & 0x3FF == y && ((x << 10) + y) < 0x10_0000
  {
  }

  lemma PairUnits(c: Scalar)
    requires c >= 0x1_0000
    ensures var units := Utf16(c);
            |units| == 2 && IsHigh(units[0]) && IsLow(units[1]) && Pair(units[0], units[1]) == c
  {
    PairIs(c);
  }

  lemma FirstPair(h: Unit, l: Unit, units: seq<Unit>)
    requires IsHigh(h) && IsLow(l) && FromUtf16(units).Some?
    ensures FromUtf16([h, l] + units) == Some([Pair(h, l)] + FromUtf16(units).value)
  {
    assert ([h, l] + units)[2..] == units;
  }

  lemma FirstUnit(c: Scalar, units: seq<Unit>)
    requires c < 0x1_0000 && FromUtf16(units).Some?
    ensures FromUtf16([c as Unit] + units) == Some([c] + FromUtf16(units).value)
  {
    assert ([c as Unit] + units)[1..] == units;
  }

  lemma FirstOfUtf16(c: Scalar, units: seq<Unit>)
    requires FromUtf16(units).Some?
    ensures FromUtf16(Utf16(c) + units) == Some([c] + FromUtf16(units).value)
  {
    if c < 0x1_0000 {
      FirstUnit(c, units);
    } else {
      PairUnits(c);
      FirstPair(Utf16(c)[0], Utf16(c)[1], units);
    }
  }

  lemma {:induction false} FromUtf16Of(text: seq<Scalar>)
    ensures FromUtf16(Utf16Text(text)) == Some(text)
  {
    var none: seq<Scalar> := [];
    assert FromUtf16([]) == Some(none);
    if text != [] {
      assert [text[0]] + text[1..] == text;
      FromUtf16Of(text[1..]);
      FirstOfUtf16(text[0], Utf16Text(text[1..]));
    }
  }

  lemma {:induction false} Utf16OfDecoded(units: seq<Unit>)
    requires FromUtf16(units).Some?
    ensures Utf16Text(FromUtf16(units).value) == units
    decreases |units|
  {
    if units != [] {
      var text := FromUtf16(units).value;
      if IsHigh(units[0]) {
        PairOf(units[0], units[1]);
        Utf16OfDecoded(units[2..]);
        assert text[1..] == FromUtf16(units[2..]).value;
        assert units == [units[0], units[1]] + units[2..];
      } else {
        Utf16OfDecoded(units[1..]);
        assert text[1..] == FromUtf16(units[1..]).value;
        assert units == [units[0]] + units[1..];
      }
    }
  }

  /** The decoded units are read as UTF-16: exactly the UTF-16 form of a text is read, and as that text. */
  lemma FromUtf16Iff(units: seq<Unit>, text: seq<Scalar>)
    ensures FromUtf16(units) == Some(text) <==> Utf16Text(text) == units
  {
    FromUtf16Of(text);
    if FromUtf16(units) == Some(text) {
      Utf16OfDecoded(units);
    }
  }
}
