/** UTF-8 as `str::from_utf8` checks it: the well-formed byte sequences of
    table 3-7 in section 3.9 of the Unicode Standard, which exclude overlong
    forms, surrogates and code points above U+10FFFF. */
module Utf8 {
  import opened ImapTypes

  predicate IsScalar(v: int) {
    (0 <= v < 0xD800) || (0xE000 <= v < 0x11_0000)
  }

  predicate IsCont(b: byte) {
    0x80 <= b < 0xC0
  }

  predicate InRange(b: byte, lo: int, hi: int) {
    lo <= b as int <= hi
  }

  /** The length of the well-formed sequence `b` starts with, or 0 when its
      first bytes form none. */
  function SequenceLength(b: Bytes): (n: nat)
    requires |b| > 0
    ensures n <= 4 && n <= |b|
  {
    var b0 := b[0];
    if b0 < 0x80 then 1
    else if 0xC2 <= b0 <= 0xDF then
      if |b| >= 2 && IsCont(b[1]) then 2 else 0
    else if 0xE0 <= b0 <= 0xEF then
      var lo := if b0 == 0xE0 then 0xA0 else 0x80;
      var hi := if b0 == 0xED then 0x9F else 0xBF;
      if |b| >= 3 && InRange(b[1], lo, hi) && IsCont(b[2]) then 3 else 0
    else if 0xF0 <= b0 <= 0xF4 then
      var lo := if b0 == 0xF0 then 0x90 else 0x80;
      var hi := if b0 == 0xF4 then 0x8F else 0xBF;
      if |b| >= 4 && InRange(b[1], lo, hi) && IsCont(b[2]) && IsCont(b[3]) then 4 else 0
    else 0
  }

  /** The code point the first `n` bytes of `b` spell. */
  function CodePoint(b: Bytes, n: nat): int
    requires 1 <= n <= 4 && n <= |b|
  {
    if n == 1 then b[0] as int
    else if n == 2 then (b[0] as int - 0xC0) * 0x40 + (b[1] as int - 0x80)
    else if n == 3 then (b[0] as int - 0xE0) * 0x1000 + (b[1] as int - 0x80) * 0x40 + (b[2] as int - 0x80)
    else (b[0] as int - 0xF0) * 0x4_0000 + (b[1] as int - 0x80) * 0x1000 + (b[2] as int - 0x80) * 0x40 + (b[3] as int - 0x80)
  }

  /** A well-formed sequence spells a Unicode scalar value. */
  lemma WellFormedIsScalar(b: Bytes)
    requires |b| > 0 && SequenceLength(b) > 0
    ensures IsScalar(CodePoint(b, SequenceLength(b)))
  {
  }

  /** The text `b` spells, or None when `b` is not well-formed UTF-8. */
  function DecodeUtf8(b: Bytes): Option<string>
    decreases |b|
  {
    if |b| == 0 then Some([])
    else
      var n := SequenceLength(b);
      if n == 0 then None
      else
        WellFormedIsScalar(b);
        var c := CodePoint(b, n) as char;
        match DecodeUtf8(b[n..])
        case None => None
        case Some(t) => Some([c] + t)
  }

  function EncodeChar(c: char): (bytes: Bytes)
    ensures 1 <= |bytes| <= 4
  {
    var v := c as int;
    if v < 0x80 then [v as byte]
    else if v < 0x800 then [(0xC0 + v / 0x40) as byte, (0x80 + v % 0x40) as byte]
    else if v < 0x1_0000 then
      [(0xE0 + v / 0x1000) as byte, (0x80 + v / 0x40 % 0x40) as byte, (0x80 + v % 0x40) as byte]
    else
      [(0xF0 + v / 0x4_0000) as byte, (0x80 + v / 0x1000 % 0x40) as byte,
       (0x80 + v / 0x40 % 0x40) as byte, (0x80 + v % 0x40) as byte]
  }

  /** The UTF-8 form of a text. */
  function EncodeUtf8(s: string): Bytes
    decreases |s|
  {
    if |s| == 0 then [] else EncodeChar(s[0]) + EncodeUtf8(s[1..])
  }

  /** Euclidean division by 64 has one answer. */
  lemma DivMod64(v: int, q: int, r: int)
    requires v == q * 0x40 + r && 0 <= r < 0x40
    ensures v / 0x40 == q && v % 0x40 == r
  {
  }

  /** The six-bit groups EncodeChar takes from a code point put it back
      together. */
  lemma SixBitGroups(v: int)
    requires 0 <= v
    ensures v == v / 0x40 * 0x40 + v % 0x40
    ensures v == v / 0x1000 * 0x1000 + v / 0x40 % 0x40 * 0x40 + v % 0x40
    ensures v == v / 0x4_0000 * 0x4_0000 + v / 0x1000 % 0x40 * 0x1000 + v / 0x40 % 0x40 * 0x40 + v % 0x40
  {
    var t := v / 0x40;
    var u := t / 0x40;
    DivMod64(v, t, v % 0x40);
    DivMod64(t, u, t % 0x40);
    DivMod64(u, u / 0x40, u % 0x40);
    assert v / 0x1000 == u by {
      DivMod64(v / 0x1000 * 0x40 + v % 0x1000 / 0x40, v / 0x1000, v % 0x1000 / 0x40);
    }
    assert v / 0x1000 % 0x40 == u % 0x40;
    assert v / 0x4_0000 == u / 0x40;
  }

  /** The bytes of one character form a well-formed sequence, whatever
      follows them, and spell that character back. */
  lemma EncodeCharDecodes(c: char, rest: Bytes)
    ensures var b := EncodeChar(c) + rest;
      SequenceLength(b) == |EncodeChar(c)| && CodePoint(b, |EncodeChar(c)|) == c as int
  {
    var v := c as int;
    if v < 0x80 {
    } else if v < 0x800 {
      TwoBytesDecode(c, rest);
    } else if v < 0x1_0000 {
      ThreeBytesDecode(c, rest);
    } else {
      FourBytesDecode(c, rest);
    }
  }

  lemma TwoBytesDecode(c: char, rest: Bytes)
    requires 0x80 <= c as int < 0x800
    ensures var b := EncodeChar(c) + rest; SequenceLength(b) == 2 && CodePoint(b, 2) == c as int
  {
    var v := c as int;
    var b := EncodeChar(c) + rest;
    assert b[0] as int == 0xC0 + v / 0x40 && b[1] as int == 0x80 + v % 0x40;
  }

  lemma ThreeBytesDecode(c: char, rest: Bytes)
    requires 0x800 <= c as int < 0x1_0000
    ensures var b := EncodeChar(c) + rest; SequenceLength(b) == 3 && CodePoint(b, 3) == c as int
  {
    var v := c as int;
    var b := EncodeChar(c) + rest;
    SixBitGroups(v);
    assert b[0] as int == 0xE0 + v / 0x1000;
    assert b[1] as int == 0x80 + v / 0x40 % 0x40;
    assert b[2] as int == 0x80 + v % 0x40;
  }

  lemma FourBytesDecode(c: char, rest: Bytes)
    requires 0x1_0000 <= c as int
    ensures var b := EncodeChar(c) + rest; SequenceLength(b) == 4 && CodePoint(b, 4) == c as int
  {
    var v := c as int;
    var b := EncodeChar(c) + rest;
    SixBitGroups(v);
    assert b[0] as int == 0xF0 + v / 0x4_0000;
    assert b[1] as int == 0x80 + v / 0x1000 % 0x40;
    assert b[2] as int == 0x80 + v / 0x40 % 0x40;
    assert b[3] as int == 0x80 + v % 0x40;
  }

  /** Round trip: decoding the UTF-8 form of any text gives the text back. */
  lemma {:induction false} DecodeEncode(s: string)
    ensures DecodeUtf8(EncodeUtf8(s)) == Some(s)
    decreases |s|
  {
    if |s| > 0 {
      var head := EncodeChar(s[0]);
      var b := EncodeUtf8(s);
      EncodeCharDecodes(s[0], EncodeUtf8(s[1..]));
      assert b[|head|..] == EncodeUtf8(s[1..]);
      DecodeEncode(s[1..]);
      assert [s[0]] + s[1..] == s;
    }
  }

  /** Conversely, bytes that decode are the UTF-8 form of what they decode to,
      so the decoder accepts exactly the encodings of texts. */
  lemma {:induction false} DecodedIsEncoding(b: Bytes)
    requires DecodeUtf8(b).Some?
    ensures EncodeUtf8(DecodeUtf8(b).value) == b
    decreases |b|
  {
    if |b| > 0 {
      var n := SequenceLength(b);
      WellFormedIsScalar(b);
      var c := CodePoint(b, n) as char;
      var t := DecodeUtf8(b[n..]).value;
      assert DecodeUtf8(b).value == [c] + t;
      assert EncodeUtf8(t) == b[n..] by {
        DecodedIsEncoding(b[n..]);
      }
      assert EncodeChar(c) == b[..n] by {
        SequenceEncodes(b);
      }
      assert EncodeUtf8([c] + t) == EncodeChar(c) + EncodeUtf8(t) by {
        assert ([c] + t)[1..] == t;
      }
      assert b[..n] + b[n..] == b;
    }
  }

  lemma DivMod4096(v: int, q: int, r: int)
    requires v == q * 0x1000 + r && 0 <= r < 0x1000
    ensures v / 0x1000 == q
  {
  }

  lemma DivMod262144(v: int, q: int, r: int)
    requires v == q * 0x4_0000 + r && 0 <= r < 0x4_0000
    ensures v / 0x4_0000 == q
  {
  }

  /** A well-formed sequence is the encoding of the character it spells. */
  lemma SequenceEncodes(b: Bytes)
    requires |b| > 0 && SequenceLength(b) > 0
    ensures IsScalar(CodePoint(b, SequenceLength(b)))
    ensures EncodeChar(CodePoint(b, SequenceLength(b)) as char) == b[..SequenceLength(b)]
  {
    var n := SequenceLength(b);
    WellFormedIsScalar(b);
    if n == 2 {
      TwoBytesEncode(b);
    } else if n == 3 {
      ThreeBytesEncode(b);
    } else if n == 4 {
      FourBytesEncode(b);
    }
  }

  lemma TwoBytesEncode(b: Bytes)
    requires |b| > 0 && SequenceLength(b) == 2
    ensures IsScalar(CodePoint(b, 2)) && EncodeChar(CodePoint(b, 2) as char) == b[..2]
  {
    WellFormedIsScalar(b);
    var v := CodePoint(b, 2);
    DivMod64(v, b[0] as int - 0xC0, b[1] as int - 0x80);
    assert EncodeChar(v as char) == [b[0], b[1]];
  }

  lemma ThreeBytesEncode(b: Bytes)
    requires |b| > 0 && SequenceLength(b) == 3
    ensures IsScalar(CodePoint(b, 3)) && EncodeChar(CodePoint(b, 3) as char) == b[..3]
  {
    WellFormedIsScalar(b);
    var v := CodePoint(b, 3);
    var x, y, z := b[0] as int - 0xE0, b[1] as int - 0x80, b[2] as int - 0x80;
    DivMod64(v, x * 0x40 + y, z);
    DivMod64(v / 0x40, x, y);
    DivMod4096(v, x, y * 0x40 + z);
    assert EncodeChar(v as char) == [b[0], b[1], b[2]];
  }

  lemma FourBytesEncode(b: Bytes)
    requires |b| > 0 && SequenceLength(b) == 4
    ensures IsScalar(CodePoint(b, 4)) && EncodeChar(CodePoint(b, 4) as char) == b[..4]
  {
    WellFormedIsScalar(b);
    var v := CodePoint(b, 4);
    var w, x, y, z := b[0] as int - 0xF0, b[1] as int - 0x80, b[2] as int - 0x80, b[3] as int - 0x80;
    DivMod64(v, w * 0x1000 + x * 0x40 + y, z);
    DivMod64(v / 0x40, w * 0x40 + x, y);
    DivMod4096(v, w * 0x40 + x, y * 0x40 + z);
    DivMod64(v / 0x1000, w, x);
    DivMod262144(v, w, x * 0x1000 + y * 0x40 + z);
    assert EncodeChar(v as char) == [b[0], b[1], b[2], b[3]];
  }
}
