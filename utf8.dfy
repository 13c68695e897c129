/**
 * Python's `str.encode()` and `bytes.decode(errors='replace')` with the default UTF-8 codec.
 * An ill-formed sequence is replaced by one U+FFFD per maximal ill-formed subpart, as CPython does.
 */
module Utf8 {
  import opened Bytes

  const REPLACEMENT: char := '\U{FFFD}'

  /** The UTF-8 encoding of one character. */
  function EncodeChar(c: char): (b: Bytes)
    ensures 1 <= |b| <= 4
  {
    var cp := c as int;
    if cp < 0x80 then [cp as byte]
    else if cp < 0x800 then [(0xC0 + cp / 64) as byte, (0x80 + cp % 64) as byte]
    else if cp < 0x10000 then
      [(0xE0 + cp / 4096) as byte, (0x80 + (cp / 64) % 64) as byte, (0x80 + cp % 64) as byte]
    else
      [(0xF0 + cp / 262144) as byte, (0x80 + (cp / 4096) % 64) as byte,
       (0x80 + (cp / 64) % 64) as byte, (0x80 + cp % 64) as byte]
  }

  /** Python's `s.encode()`. */
  function Encode(s: string): Bytes
  {
    if s == "" then [] else EncodeChar(s[0]) + Encode(s[1..])
  }

  /** A text whose encoding starts with a byte below 0x80 starts with that character, encoded alone. */
  lemma EncodeAsciiHead(text: string)
    requires |Encode(text)| > 0 && Encode(text)[0] < 0x80
    ensures text != [] && text[0] as int == Encode(text)[0] as int
    ensures Encode(text) == [Encode(text)[0]] + Encode(text[1..])
  {
  }

  /** The length of the sequence a lead byte announces; 0 for a byte that cannot start one. */
  function LeadLength(b0: byte): nat
  {
    if b0 < 0x80 then 1
    else if 0xC2 <= b0 <= 0xDF then 2
    else if 0xE0 <= b0 <= 0xEF then 3
    else if 0xF0 <= b0 <= 0xF4 then 4
    else 0
  }

  predicate IsContinuation(b: byte)
  {
    0x80 <= b <= 0xBF
  }

  /** The second byte's range depends on the lead (no overlong forms, no surrogates, nothing past U+10FFFF). */
  predicate SecondOk(b0: byte, b1: byte)
  {
    if b0 == 0xE0 then 0xA0 <= b1 <= 0xBF
    else if b0 == 0xED then 0x80 <= b1 <= 0x9F
    else if b0 == 0xF0 then 0x90 <= b1 <= 0xBF
    else if b0 == 0xF4 then 0x80 <= b1 <= 0x8F
    else IsContinuation(b1)
  }

  /** How many bytes after a multi-byte lead continue it correctly. */
  function ValidTail(b: Bytes): (k: nat)
    requires |b| > 0 && LeadLength(b[0]) >= 2
    ensures k < LeadLength(b[0]) && k < |b|
  {
    var n := LeadLength(b[0]);
    if |b| < 2 || !SecondOk(b[0], b[1]) then 0
    else if n == 2 || |b| < 3 || !IsContinuation(b[2]) then 1
    else if n == 3 || |b| < 4 || !IsContinuation(b[3]) then 2
    else 3
  }

  /** The character a complete well-formed sequence stands for. */
  function CodePoint(b: Bytes): char
    requires |b| > 0 && LeadLength(b[0]) >= 2 && |b| == LeadLength(b[0]) && ValidTail(b) == |b| - 1
  {
    var n := |b|;
    if n == 2 then ((b[0] as int - 0xC0) * 64 + (b[1] as int - 0x80)) as char
    else if n == 3 then
      ((b[0] as int - 0xE0) * 4096 + (b[1] as int - 0x80) * 64 + (b[2] as int - 0x80)) as char
    else
      ((b[0] as int - 0xF0) * 262144 + (b[1] as int - 0x80) * 4096 + (b[2] as int - 0x80) * 64
       + (b[3] as int - 0x80)) as char
  }

  /** Python's `b.decode(errors='replace')`. */
  function Decode(b: Bytes): string
    decreases |b|
  {
    if b == [] then ""
    else
      var n := LeadLength(b[0]);
      if n == 0 then [REPLACEMENT] + Decode(b[1..])
      else if n == 1 then [b[0] as int as char] + Decode(b[1..])
      else
        var k := ValidTail(b);
        if k == n - 1 then [CodePoint(b[..n])] + Decode(b[n..])
        else [REPLACEMENT] + Decode(b[k + 1..])
  }

  lemma {:induction false} EncodeAppend(a: string, b: string)
    ensures Encode(a + b) == Encode(a) + Encode(b)
  {
    if a != "" {
      assert (a + b)[0] == a[0];
      assert (a + b)[1..] == a[1..] + b;
      EncodeAppend(a[1..], b);
    } else {
      assert a + b == b;
    }
  }

  lemma DecodeChar2(c: char, rest: Bytes)
    requires 0x80 <= c as int < 0x800
    ensures Decode(EncodeChar(c) + rest) == [c] + Decode(rest)
  {
    var cp := c as int;
    var e := EncodeChar(c);
    var b := e + rest;
    assert 2 <= cp / 64 < 32;
    assert LeadLength(b[0]) == 2;
    assert ValidTail(b) == 1;
    assert b[..2] == e && b[2..] == rest;
    assert CodePoint(e) as int == (cp / 64) * 64 + cp % 64 == cp;
  }

  lemma DecodeChar3(c: char, rest: Bytes)
    requires 0x800 <= c as int < 0x10000
    ensures Decode(EncodeChar(c) + rest) == [c] + Decode(rest)
  {
    var cp := c as int;
    var e := EncodeChar(c);
    var b := e + rest;
    var hi, mid, lo := cp / 4096, (cp / 64) % 64, cp % 64;
    assert cp == hi * 4096 + mid * 64 + lo;
    assert hi < 16;
    assert hi == 0 ==> mid >= 0x20;
    assert hi == 0xD ==> mid < 0x20;
    assert LeadLength(b[0]) == 3;
    assert SecondOk(b[0], b[1]);
    assert ValidTail(b) == 2;
    assert b[..3] == e && b[3..] == rest;
    assert CodePoint(e) as int == cp;
  }

  /** A supplementary code point as four 6-bit groups; the first two fix the lead and second bytes' ranges. */
  lemma Groups4(cp: int)
    requires 0x10000 <= cp <= 0x10FFFF
    ensures cp == (cp / 262144) * 262144 + ((cp / 4096) % 64) * 4096 + ((cp / 64) % 64) * 64 + cp % 64
    ensures cp / 262144 <= 4
    ensures cp / 262144 == 0 ==> (cp / 4096) % 64 >= 0x10
    ensures cp / 262144 == 4 ==> (cp / 4096) % 64 < 0x10
  {
  }

  lemma DecodeChar4(c: char, rest: Bytes)
    requires 0x10000 <= c as int
    ensures Decode(EncodeChar(c) + rest) == [c] + Decode(rest)
  {
    var cp := c as int;
    assert cp <= 0x10FFFF;
    Groups4(cp);
    var e := EncodeChar(c);
    var b := e + rest;
    assert LeadLength(b[0]) == 4;
    assert SecondOk(b[0], b[1]);
    assert ValidTail(b) == 3;
    assert b[..4] == e && b[4..] == rest;
    assert CodePoint(e) as int == cp;
  }

  lemma DecodeChar(c: char, rest: Bytes)
    ensures Decode(EncodeChar(c) + rest) == [c] + Decode(rest)
  {
    var cp := c as int;
    if cp < 0x80 {
      assert (EncodeChar(c) + rest)[1..] == rest;
    } else if cp < 0x800 {
      DecodeChar2(c, rest);
    } else if cp < 0x10000 {
      DecodeChar3(c, rest);
    } else {
      DecodeChar4(c, rest);
    }
  }

  /** Decoding what was encoded gives the text back: every string survives the wire. */
  lemma {:induction false} DecodeEncode(s: string)
    ensures Decode(Encode(s)) == s
  {
    if s != "" {
      DecodeChar(s[0], Encode(s[1..]));
      DecodeEncode(s[1..]);
    }
  }

  predicate IsAsciiText(s: string)
  {
    forall i :: 0 <= i < |s| ==> s[i] < '\U{80}'
  }

  /** ASCII text encodes one byte per character. */
  lemma {:induction false} EncodeAscii(s: string)
    requires IsAsciiText(s)
    ensures Encode(s) == Ascii(s)
  {
    if s != "" {
      var a := Ascii(s);
      assert a == [a[0]] + a[1..];
      assert a[1..] == Ascii(s[1..]);
      assert EncodeChar(s[0]) == [a[0]];
      EncodeAscii(s[1..]);
    }
  }
}
