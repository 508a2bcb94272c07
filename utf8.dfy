/**
  Turning stored bytes into text.

  `bytes.decode('utf-8', errors='ignore')` and `open(..., encoding='utf-8',
  errors='ignore')` drop every byte that does not belong to a well-formed
  UTF-8 sequence instead of failing; a plain `open(..., encoding='utf-8')`
  fails on the first such byte. Reading a file in text mode also turns
  `"\r\n"` and a lone `"\r"` into `"\n"`.
 */
module Utf8 {
  import opened Base

  newtype uint8 = x: int | 0 <= x < 256

  /** A continuation byte 80..BF. */
  predicate IsContinuation(b: uint8) {
    0x80 <= b <= 0xBF
  }

  /** The ranges the second byte of a multi-byte sequence may take (Unicode, Table 3-7). */
  predicate SecondByteOk(lead: uint8, b: uint8) {
    if lead == 0xE0 then 0xA0 <= b <= 0xBF
    else if lead == 0xED then 0x80 <= b <= 0x9F
    else if lead == 0xF0 then 0x90 <= b <= 0xBF
    else if lead == 0xF4 then 0x80 <= b <= 0x8F
    else IsContinuation(b)
  }

  /** Length of the well-formed UTF-8 sequence that starts `b`, or 0 when `b` does not start with one. */
  function SequenceLength(b: seq<uint8>): (k: nat)
    ensures k <= |b| && k <= 4
    ensures b != [] && b[0] <= 0x7F ==> k == 1
    ensures b != [] && IsContinuation(b[0]) ==> k == 0
  {
    if b == [] then 0
    else if b[0] <= 0x7F then 1
    else if 0xC2 <= b[0] <= 0xDF then
      (if |b| >= 2 && IsContinuation(b[1]) then 2 else 0)
    else if 0xE0 <= b[0] <= 0xEF then
      (if |b| >= 3 && SecondByteOk(b[0], b[1]) && IsContinuation(b[2]) then 3 else 0)
    else if 0xF0 <= b[0] <= 0xF4 then
      (if |b| >= 4 && SecondByteOk(b[0], b[1]) && IsContinuation(b[2]) && IsContinuation(b[3]) then 4 else 0)
    else 0
  }

  /** A Unicode scalar value: a code point that is not a surrogate. */
  predicate IsScalar(cp: int) {
    (0 <= cp < 0xD800) || (0xE000 <= cp < 0x11_0000)
  }

  /** The code point a well-formed sequence stands for. */
  function CodePoint(b: seq<uint8>): (cp: int)
    requires SequenceLength(b) > 0
    ensures IsScalar(cp)
  {
    var k := SequenceLength(b);
    if k == 1 then b[0] as int
    else if k == 2 then (b[0] as int - 0xC0) * 64 + (b[1] as int - 0x80)
    else if k == 3 then
      (b[0] as int - 0xE0) * 4096 + (b[1] as int - 0x80) * 64 + (b[2] as int - 0x80)
    else
      (b[0] as int - 0xF0) * 262144 + (b[1] as int - 0x80) * 4096 + (b[2] as int - 0x80) * 64 + (b[3] as int - 0x80)
  }

  /** Decoding that drops invalid bytes (`errors='ignore'`). */
  function DecodeIgnoring(b: seq<uint8>): string
  {
    if b == [] then []
    else
      var k := SequenceLength(b);
      if k == 0 then DecodeIgnoring(b[1..])
      else [CodePoint(b) as char] + DecodeIgnoring(b[k..])
  }

  /** Strict decoding: `None` stands for the `UnicodeDecodeError` raised at the first invalid byte. */
  function DecodeStrict(b: seq<uint8>): Option<string>
  {
    if b == [] then Some([])
    else
      var k := SequenceLength(b);
      if k == 0 then None
      else
        match DecodeStrict(b[k..])
        case None => None
        case Some(t) => Some([CodePoint(b) as char] + t)
  }

  /** Where strict decoding succeeds, ignoring decoding gives the same text. */
  lemma {:induction false} StrictAgreesWithIgnoring(b: seq<uint8>)
    requires DecodeStrict(b).Some?
    ensures DecodeIgnoring(b) == DecodeStrict(b).value
  {
    if b != [] {
      StrictAgreesWithIgnoring(b[SequenceLength(b)..]);
    }
  }

  /** A byte that can never start a sequence is dropped without affecting the rest. */
  lemma {:induction false} StrayContinuationDropped(x: uint8, rest: seq<uint8>)
    requires IsContinuation(x) || x >= 0xF5 || x == 0xC0 || x == 0xC1
    ensures DecodeIgnoring([x] + rest) == DecodeIgnoring(rest)
    ensures DecodeStrict([x] + rest) == None
  {
    assert ([x] + rest)[1..] == rest;
  }

  /** The UTF-8 encoding of one character. */
  function EncodeChar(c: char): (b: seq<uint8>)
    ensures 1 <= |b| <= 4
  {
    var cp := c as int;
    if cp < 0x80 then [cp as uint8]
    else if cp < 0x800 then [(0xC0 + cp / 64) as uint8, (0x80 + cp % 64) as uint8]
    else if cp < 0x1_0000 then
      [(0xE0 + cp / 4096) as uint8, (0x80 + (cp / 64) % 64) as uint8, (0x80 + cp % 64) as uint8]
    else
      [(0xF0 + cp / 262144) as uint8, (0x80 + (cp / 4096) % 64) as uint8,
       (0x80 + (cp / 64) % 64) as uint8, (0x80 + cp % 64) as uint8]
  }

  /** The UTF-8 encoding of a string. */
  function Encode(s: string): seq<uint8>
  {
    if s == [] then [] else EncodeChar(s[0]) + Encode(s[1..])
  }

  /** The encoding of one character is read back as exactly that character. */
  lemma EncodeCharDecodes(c: char, rest: seq<uint8>)
    ensures SequenceLength(EncodeChar(c) + rest) == |EncodeChar(c)|
    ensures CodePoint(EncodeChar(c) + rest) == c as int
  {
    var cp := c as int;
    if cp < 0x80 {
    } else if cp < 0x800 {
      TwoByteDecodes(c, rest);
    } else if cp < 0x1_0000 {
      ThreeByteDecodes(c, rest);
    } else {
      FourByteDecodes(c, rest);
    }
  }

  lemma TwoByteDecodes(c: char, rest: seq<uint8>)
    requires 0x80 <= c as int < 0x800
    ensures SequenceLength(EncodeChar(c) + rest) == 2
    ensures CodePoint(EncodeChar(c) + rest) == c as int
  {
    var cp := c as int;
    var q, r := cp / 64, cp % 64;
    assert cp == 64 * q + r;
  }

  lemma ThreeByteDecodes(c: char, rest: seq<uint8>)
    requires 0x800 <= c as int < 0x1_0000
    ensures SequenceLength(EncodeChar(c) + rest) == 3
    ensures CodePoint(EncodeChar(c) + rest) == c as int
  {
    var cp := c as int;
    var q2, q1, r1 := cp / 4096, (cp / 64) % 64, cp % 64;
    DigitsBase64(cp);
    var b := EncodeChar(c) + rest;
    assert b[0] as int == 0xE0 + q2 && b[1] as int == 0x80 + q1 && b[2] as int == 0x80 + r1;
    assert cp == 4096 * q2 + 64 * q1 + r1;
  }

  lemma FourByteDecodes(c: char, rest: seq<uint8>)
    requires 0x1_0000 <= c as int
    ensures SequenceLength(EncodeChar(c) + rest) == 4
    ensures CodePoint(EncodeChar(c) + rest) == c as int
  {
    var cp := c as int;
    var q3, q2, q1, r1 := cp / 262144, (cp / 4096) % 64, (cp / 64) % 64, cp % 64;
    DigitsBase64(cp);
    var b := EncodeChar(c) + rest;
    assert b[0] as int == 0xF0 + q3 && b[1] as int == 0x80 + q2;
    assert b[2] as int == 0x80 + q1 && b[3] as int == 0x80 + r1;
    assert cp == 262144 * q3 + 4096 * q2 + 64 * q1 + r1;
  }

  /** The base-64 digits that the multi-byte encodings spread over their bytes. */
  lemma DigitsBase64(cp: nat)
    ensures cp == 64 * (cp / 64) + cp % 64
    ensures cp / 64 == 64 * (cp / 4096) + (cp / 64) % 64
    ensures cp / 4096 == 64 * (cp / 262144) + (cp / 4096) % 64
    ensures cp / 4096 == (cp / 64) / 64 && cp / 262144 == (cp / 4096) / 64
    ensures cp == 262144 * (cp / 262144) + 4096 * ((cp / 4096) % 64) + 64 * ((cp / 64) % 64) + cp % 64
  {
    var a := cp / 64;
    assert a / 64 == cp / 4096;
    assert (cp / 4096) / 64 == cp / 262144;
  }

  /** Decoding, strict or ignoring, inverts encoding. */
  lemma {:induction false} DecodeEncodeRoundTrip(s: string)
    ensures DecodeIgnoring(Encode(s)) == s
    ensures DecodeStrict(Encode(s)) == Some(s)
  {
    if s != [] {
      var e := EncodeChar(s[0]);
      var rest := Encode(s[1..]);
      EncodeCharDecodes(s[0], rest);
      assert (e + rest)[|e|..] == rest;
      DecodeEncodeRoundTrip(s[1..]);
      assert [s[0]] + s[1..] == s;
    }
  }

  /** Universal-newline translation of text-mode reading. */
  function TranslateNewlines(s: string): (r: string)
    ensures '\r' !in r
    ensures |r| <= |s|
  {
    if s == [] then []
    else if s[0] == '\r' then
      if |s| >= 2 && s[1] == '\n' then "\n" + TranslateNewlines(s[2..]) else "\n" + TranslateNewlines(s[1..])
    else [s[0]] + TranslateNewlines(s[1..])
  }

  /** Text without carriage returns is read unchanged; translating twice changes nothing more. */
  lemma {:induction false} TranslateNewlinesKeeps(s: string)
    requires '\r' !in s
    ensures TranslateNewlines(s) == s
  {
    if s != [] {
      assert '\r' !in s[1..];
      TranslateNewlinesKeeps(s[1..]);
    }
  }
}
