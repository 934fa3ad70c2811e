/**
  UTF-8 as Python's `str.encode('utf-8')` and strict `bytes.decode('utf-8')` see it.
  A Dafny `char` is a Unicode scalar value, exactly the set of characters UTF-8 can
  encode. The decoder accepts precisely the well-formed byte sequences of table 3-7
  of the Unicode Standard (no overlong forms, no surrogates, nothing above U+10FFFF,
  no truncated sequence), which is where CPython's strict decoder raises an error.
 */
module Utf8 {
  import opened Bytes
  import opened Wrappers

  predicate IsContinuation(b: byte) { 0x80 <= b <= 0xBF }

  /** The one-to-four-byte UTF-8 form of one character. */
  function EncodeChar(c: char): (r: seq<byte>)
    ensures 1 <= |r| <= 4
    ensures (|r| == 1) == (c as int < 0x80)
  {
    var cp := c as int;
    if cp < 0x80 then [cp]
    else if cp < 0x800 then [0xC0 + cp / 0x40, 0x80 + cp % 0x40]
    else if cp < 0x1_0000 then [0xE0 + cp / 0x1000, 0x80 + (cp / 0x40) % 0x40, 0x80 + cp % 0x40]
    else [0xF0 + cp / 0x4_0000, 0x80 + (cp / 0x1000) % 0x40, 0x80 + (cp / 0x40) % 0x40, 0x80 + cp % 0x40]
  }

  /** `s.encode('utf-8')`. */
  function Encode(s: string): (r: seq<byte>)
    ensures |r| >= |s|
  {
    if s == [] then [] else EncodeChar(s[0]) + Encode(s[1..])
  }

  /* Bounds of the second byte of a three- and four-byte sequence (table 3-7). */
  function Low3(b0: byte): byte { if b0 == 0xE0 then 0xA0 else 0x80 }
  function High3(b0: byte): byte { if b0 == 0xED then 0x9F else 0xBF }
  function Low4(b0: byte): byte { if b0 == 0xF0 then 0x90 else 0x80 }
  function High4(b0: byte): byte { if b0 == 0xF4 then 0x8F else 0xBF }

  /**
    The character that a well-formed sequence at the head of `b` encodes, with the
    sequence's length; `None` when the head is not a well-formed sequence.
   */
  function DecodeFirst(b: seq<byte>): (r: Option<(char, nat)>)
    requires b != []
    ensures r.Some? ==> 1 <= r.value.1 <= |b| && r.value.1 <= 4
  {
    var b0 := b[0] as int;
    if b0 < 0x80 then
      Some((b0 as char, 1))
    else if 0xC2 <= b0 <= 0xDF then
      if |b| >= 2 && IsContinuation(b[1]) then
        Some((((b0 - 0xC0) * 0x40 + (b[1] as int - 0x80)) as char, 2))
      else None
    else if 0xE0 <= b0 <= 0xEF then
      if |b| >= 3 && Low3(b0) <= b[1] <= High3(b0) && IsContinuation(b[2]) then
        var cp := (b0 - 0xE0) * 0x1000 + (b[1] as int - 0x80) * 0x40 + (b[2] as int - 0x80);
        Some((cp as char, 3))
      else None
    else if 0xF0 <= b0 <= 0xF4 then
      if |b| >= 4 && Low4(b0) <= b[1] <= High4(b0) && IsContinuation(b[2]) && IsContinuation(b[3]) then
        var cp := (b0 - 0xF0) * 0x4_0000 + (b[1] as int - 0x80) * 0x1000
                  + (b[2] as int - 0x80) * 0x40 + (b[3] as int - 0x80);
        Some((cp as char, 4))
      else None
    else
      None
  }

  /** Strict `b.decode('utf-8')`: `None` where Python raises UnicodeDecodeError. */
  function Decode(b: seq<byte>): (r: Option<string>)
    ensures r.Some? ==> |r.value| <= |b|
    decreases |b|
  {
    if b == [] then Some([])
    else match DecodeFirst(b)
      case None => None
      case Some((c, n)) =>
        match Decode(b[n..])
        case None => None
        case Some(s) => Some([c] + s)
  }

  lemma DivMod64(q: int, r: int)
    requires 0 <= q && 0 <= r < 0x40
    ensures (q * 0x40 + r) / 0x40 == q && (q * 0x40 + r) % 0x40 == r
  {
  }

  /** The decoder reads back exactly the sequence `EncodeChar` wrote. */
  lemma DecodeFirstOfEncodeChar(c: char, rest: seq<byte>)
    ensures DecodeFirst(EncodeChar(c) + rest) == Some((c, |EncodeChar(c)|))
  {
    var cp := c as int;
    if cp < 0x80 {
      assert (EncodeChar(c) + rest)[0] == cp;
    } else if cp < 0x800 {
      DecodeFirstOfTwo(c, rest);
    } else if cp < 0x1_0000 {
      DecodeFirstOfThree(c, rest);
    } else {
      DecodeFirstOfFour(c, rest);
    }
  }

  lemma DecodeFirstOfTwo(c: char, rest: seq<byte>)
    requires 0x80 <= c as int < 0x800
    ensures DecodeFirst(EncodeChar(c) + rest) == Some((c, 2))
  {
    var cp := c as int;
    var b := EncodeChar(c) + rest;
    assert b[0] == 0xC0 + cp / 0x40 && b[1] == 0x80 + cp % 0x40;
    assert cp == (cp / 0x40) * 0x40 + cp % 0x40;
  }

  lemma DecodeFirstOfThree(c: char, rest: seq<byte>)
    requires 0x800 <= c as int < 0x1_0000
    ensures DecodeFirst(EncodeChar(c) + rest) == Some((c, 3))
  {
    var cp := c as int;
    var q := cp / 0x40;
    var b := EncodeChar(c) + rest;
    assert b[0] == 0xE0 + cp / 0x1000 && b[1] == 0x80 + q % 0x40 && b[2] == 0x80 + cp % 0x40;
    assert cp == q * 0x40 + cp % 0x40;
    assert q == (q / 0x40) * 0x40 + q % 0x40;
    assert cp / 0x1000 == q / 0x40;
  }

  lemma DecodeFirstOfFour(c: char, rest: seq<byte>)
    requires 0x1_0000 <= c as int
    ensures DecodeFirst(EncodeChar(c) + rest) == Some((c, 4))
  {
    var cp := c as int;
    var q := cp / 0x40;
    var q2 := q / 0x40;
    var b := EncodeChar(c) + rest;
    assert b[0] == 0xF0 + cp / 0x4_0000 && b[1] == 0x80 + (cp / 0x1000) % 0x40;
    assert b[2] == 0x80 + q % 0x40 && b[3] == 0x80 + cp % 0x40;
    assert cp == q * 0x40 + cp % 0x40;
    assert q == q2 * 0x40 + q % 0x40;
    assert q2 == (q2 / 0x40) * 0x40 + q2 % 0x40;
    assert cp / 0x1000 == q2;
    assert cp / 0x4_0000 == q2 / 0x40;
  }

  /** A well-formed sequence read by the decoder is what `EncodeChar` writes for its character. */
  lemma EncodeCharOfDecodeFirst(b: seq<byte>)
    requires b != [] && DecodeFirst(b).Some?
    ensures EncodeChar(DecodeFirst(b).value.0) == b[..DecodeFirst(b).value.1]
  {
    var b0 := b[0] as int;
    if b0 < 0x80 {
    } else if b0 <= 0xDF {
      EncodeCharOfTwo(b);
    } else if b0 <= 0xEF {
      EncodeCharOfThree(b);
    } else {
      EncodeCharOfFour(b);
    }
  }

  lemma EncodeCharOfTwo(b: seq<byte>)
    requires |b| >= 2 && 0xC2 <= b[0] <= 0xDF && IsContinuation(b[1])
    ensures DecodeFirst(b).Some? && EncodeChar(DecodeFirst(b).value.0) == b[..2]
  {
    var hi := b[0] as int - 0xC0;
    var lo := b[1] as int - 0x80;
    DivMod64(hi, lo);
    var c := DecodeFirst(b).value.0;
    assert c as int == hi * 0x40 + lo;
    assert EncodeChar(c) == [b[0], b[1]];
  }

  lemma EncodeCharOfThree(b: seq<byte>)
    requires |b| >= 3 && 0xE0 <= b[0] <= 0xEF && Low3(b[0]) <= b[1] <= High3(b[0]) && IsContinuation(b[2])
    ensures DecodeFirst(b).Some? && EncodeChar(DecodeFirst(b).value.0) == b[..3]
  {
    var hi := b[0] as int - 0xE0;
    var mid := b[1] as int - 0x80;
    var lo := b[2] as int - 0x80;
    DivMod64(hi * 0x40 + mid, lo);
    DivMod64(hi, mid);
    var c := DecodeFirst(b).value.0;
    assert c as int == hi * 0x1000 + mid * 0x40 + lo;
    assert (hi * 0x1000 + mid * 0x40 + lo) / 0x1000 == hi;
    assert EncodeChar(c) == [b[0], b[1], b[2]];
  }

  lemma EncodeCharOfFour(b: seq<byte>)
    requires |b| >= 4 && 0xF0 <= b[0] <= 0xF4 && Low4(b[0]) <= b[1] <= High4(b[0])
    requires IsContinuation(b[2]) && IsContinuation(b[3])
    ensures DecodeFirst(b).Some? && EncodeChar(DecodeFirst(b).value.0) == b[..4]
  {
    var top := b[0] as int - 0xF0;
    var hi := b[1] as int - 0x80;
    var mid := b[2] as int - 0x80;
    var lo := b[3] as int - 0x80;
    DivMod64((top * 0x40 + hi) * 0x40 + mid, lo);
    DivMod64(top * 0x40 + hi, mid);
    DivMod64(top, hi);
    var c := DecodeFirst(b).value.0;
    assert c as int == top * 0x4_0000 + hi * 0x1000 + mid * 0x40 + lo;
    assert (top * 0x4_0000 + hi * 0x1000 + mid * 0x40 + lo) / 0x1000 == top * 0x40 + hi;
    assert (top * 0x4_0000 + hi * 0x1000 + mid * 0x40 + lo) / 0x4_0000 == top;
    assert EncodeChar(c) == [b[0], b[1], b[2], b[3]];
  }

  /** Round trip: decoding what was encoded gives the text back. */
  lemma {:induction false} DecodeEncode(s: string)
    ensures Decode(Encode(s)) == Some(s)
  {
    if s != [] {
      var e := EncodeChar(s[0]);
      var tail := Encode(s[1..]);
      DecodeFirstOfEncodeChar(s[0], tail);
      assert (e + tail)[|e|..] == tail;
      DecodeEncode(s[1..]);
      assert [s[0]] + s[1..] == s;
    }
  }

  /* A successful decode of a non-empty string is its first character followed by the decode of the rest. */
  lemma DecodeStep(b: seq<byte>) returns (c: char, n: nat)
    requires b != [] && Decode(b).Some?
    ensures DecodeFirst(b) == Some((c, n)) && Decode(b[n..]).Some?
    ensures Decode(b).value == [c] + Decode(b[n..]).value
  {
    c, n := DecodeFirst(b).value.0, DecodeFirst(b).value.1;
  }

  /* A text that starts with `c` encodes to `b` when `c` encodes to a prefix of `b` and the rest of the text to the rest of `b`. */
  lemma EncodeCons(c: char, s: string, b: seq<byte>, n: nat)
    requires n <= |b| && EncodeChar(c) == b[..n] && Encode(s) == b[n..]
    ensures Encode([c] + s) == b
  {
    assert ([c] + s)[0] == c && ([c] + s)[1..] == s;
    assert b == b[..n] + b[n..];
  }

  /** The other round trip: whatever the decoder accepts is the encoding of what it returns. */
  lemma {:induction false} EncodeDecode(b: seq<byte>)
    requires Decode(b).Some?
    ensures Encode(Decode(b).value) == b
    decreases |b|
  {
    if b != [] {
      var c, n := DecodeStep(b);
      var s := Decode(b[n..]).value;
      EncodeCharOfDecodeFirst(b);
      EncodeDecode(b[n..]);
      EncodeCons(c, s, b, n);
    }
  }

  /** A byte string decodes exactly when it is the encoding of some text. */
  lemma DecodableIff(b: seq<byte>)
    ensures Decode(b).Some? <==> exists s :: Encode(s) == b
  {
    if Decode(b).Some? {
      EncodeDecode(b);
    }
    if exists s :: Encode(s) == b {
      var s :| Encode(s) == b;
      DecodeEncode(s);
    }
  }

  /** Encoding distributes over concatenation. */
  lemma {:induction false} EncodeAppend(a: string, b: string)
    ensures Encode(a + b) == Encode(a) + Encode(b)
  {
    if a != [] {
      assert (a + b)[1..] == a[1..] + b;
      EncodeAppend(a[1..], b);
    } else {
      assert a + b == b;
    }
  }

  predicate IsAscii(s: string) { forall i | 0 <= i < |s| :: s[i] as int < 0x80 }

  /** ASCII text is encoded one byte per character, each byte the character's code. */
  lemma {:induction false} EncodeAscii(s: string)
    requires IsAscii(s)
    ensures |Encode(s)| == |s|
    ensures forall i | 0 <= i < |s| :: Encode(s)[i] == s[i] as int
  {
    if s != [] {
      EncodeAscii(s[1..]);
    }
  }
}
