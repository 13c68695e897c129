/**
 * The parts of Python's `str` that the client code relies on: `isspace`/`strip`,
 * `splitlines`, and the integer conversions `int(s)`, `int(s, 16)` and `str(n)`.
 */
module Text {
  import opened Wrappers
  import opened Seqs

  /** Python's `str.isspace` for one character. */
  predicate IsSpace(c: char)
  {
    ('\t' <= c <= '\r') || ('\U{1C}' <= c <= ' ') || c == '\U{85}' || c == '\U{A0}'
    || c == '\U{1680}' || ('\U{2000}' <= c <= '\U{200A}') || c == '\U{2028}' || c == '\U{2029}'
    || c == '\U{202F}' || c == '\U{205F}' || c == '\U{3000}'
  }

  /** Python's `str.strip()`. */
  function StrStrip(s: string): string
  {
    Strip(s, IsSpace)
  }

  /** Python's `str.rstrip()`. */
  function StrRStrip(s: string): string
  {
    RStrip(s, IsSpace)
  }

  /** The line boundaries recognised by Python's `str.splitlines`. */
  predicate IsLineBreak(c: char)
  {
    c == '\n' || c == '\r' || c == '\U{0B}' || c == '\U{0C}' || ('\U{1C}' <= c <= '\U{1E}')
    || c == '\U{85}' || c == '\U{2028}' || c == '\U{2029}'
  }

  predicate NoBreaks(s: string)
  {
    forall i :: 0 <= i < |s| ==> !IsLineBreak(s[i])
  }

  /** The index of the first line boundary at or after `i`, or `|s|`. */
  function BreakFrom(s: string, i: nat): (r: nat)
    requires i <= |s|
    ensures i <= r <= |s|
    ensures forall j :: i <= j < r ==> !IsLineBreak(s[j])
    ensures r < |s| ==> IsLineBreak(s[r])
    decreases |s| - i
  {
    if i == |s| || IsLineBreak(s[i]) then i else BreakFrom(s, i + 1)
  }

  /** Python's `str.splitlines()`: a trailing boundary gives no empty last line, `\r\n` is one boundary. */
  function SplitLines(s: string): (lines: seq<string>)
    ensures forall k :: 0 <= k < |lines| ==> NoBreaks(lines[k])
    ensures s == "" <==> lines == []
    decreases |s|
  {
    if s == "" then []
    else
      var i := BreakFrom(s, 0);
      if i == |s| then [s]
      else
        var w := if s[i] == '\r' && i + 1 < |s| && s[i + 1] == '\n' then 2 else 1;
        [s[..i]] + SplitLines(s[i + w..])
  }

  /** The text with every line boundary character removed. */
  function DropBreaks(s: string): (r: string)
  {
    if s == "" then ""
    else if IsLineBreak(s[0]) then DropBreaks(s[1..])
    else [s[0]] + DropBreaks(s[1..])
  }

  lemma {:induction false} DropBreaksAppend(a: string, b: string)
    ensures DropBreaks(a + b) == DropBreaks(a) + DropBreaks(b)
  {
    if a != "" {
      assert (a + b)[0] == a[0];
      assert (a + b)[1..] == a[1..] + b;
      DropBreaksAppend(a[1..], b);
    } else {
      assert a + b == b;
    }
  }

  lemma {:induction false} DropBreaksNone(s: string)
    requires NoBreaks(s)
    ensures DropBreaks(s) == s
  {
    if s != "" {
      DropBreaksNone(s[1..]);
    }
  }

  lemma DropBreakRun(m: string)
    requires 0 < |m| <= 2 && forall i :: 0 <= i < |m| ==> IsLineBreak(m[i])
    ensures DropBreaks(m) == ""
  {
    if |m| == 2 {
      assert m[1..][1..] == "";
    }
  }

  /** A line, then its boundary, then the rest: only the line and the rest survive. */
  lemma DropBreaksLine(s: string, i: nat, w: nat)
    requires i + w <= |s| && 0 < w <= 2
    requires NoBreaks(s[..i])
    requires IsLineBreak(s[i]) && (w == 2 ==> IsLineBreak(s[i + 1]))
    ensures DropBreaks(s) == s[..i] + DropBreaks(s[i + w..])
  {
    var p, m, q := s[..i], s[i..i + w], s[i + w..];
    assert p + m == s[..i + w];
    SplitAt(s, i + w);
    assert forall j :: 0 <= j < |m| ==> IsLineBreak(m[j]) by {
      forall j | 0 <= j < |m| ensures IsLineBreak(m[j]) { assert m[j] == s[i + j]; }
    }
    DropBreaksAround(p, m, q);
  }

  lemma DropBreaksAround(p: string, m: string, q: string)
    requires NoBreaks(p)
    requires 0 < |m| <= 2 && forall j :: 0 <= j < |m| ==> IsLineBreak(m[j])
    ensures DropBreaks((p + m) + q) == p + DropBreaks(q)
  {
    assert DropBreaks(p + m) == p by {
      DropBreaksAppend(p, m);
      DropBreaksNone(p);
      DropBreakRun(m);
      assert p + "" == p;
    }
    DropBreaksAppend(p + m, q);
  }

  /** Splitting into lines loses only the line boundaries: the lines, in order, spell the text without them. */
  lemma {:induction false} SplitLinesSpells(s: string)
    ensures Flatten(SplitLines(s)) == DropBreaks(s)
    decreases |s|
  {
    if s != "" {
      var i := BreakFrom(s, 0);
      if i == |s| {
        assert s[..i] == s;
        DropBreaksNone(s);
      } else {
        var w := if s[i] == '\r' && i + 1 < |s| && s[i + 1] == '\n' then 2 else 1;
        var rest := SplitLines(s[i + w..]);
        assert SplitLines(s) == [s[..i]] + rest;
        assert ([s[..i]] + rest)[1..] == rest;
        SplitLinesSpells(s[i + w..]);
        assert w == 2 ==> IsLineBreak(s[i + 1]) by {
          if w == 2 {
            assert s[i + 1] == '\n';
          }
        }
        DropBreaksLine(s, i, w);
      }
    }
  }

  // --- integers -----------------------------------------------------------------

  predicate IsDigit(c: char, base: nat)
  {
    ('0' <= c <= '9') || (base == 16 && (('a' <= c <= 'f') || ('A' <= c <= 'F')))
  }

  function DigitValue(c: char, base: nat): (d: nat)
    requires IsDigit(c, base)
    ensures d < base || (base != 10 && base != 16)
  {
    if '0' <= c <= '9' then c as int - '0' as int
    else if 'a' <= c <= 'f' then c as int - 'a' as int + 10
    else c as int - 'A' as int + 10
  }

  /** Digits of `base`, with single underscores allowed between two digits (as `int()` accepts). */
  predicate ValidDigits(t: string, base: nat)
  {
    |t| > 0 && IsDigit(t[0], base) && IsDigit(t[|t| - 1], base)
    && forall i :: 0 <= i < |t| ==>
         IsDigit(t[i], base) || (t[i] == '_' && 0 < i < |t| - 1 && IsDigit(t[i - 1], base) && IsDigit(t[i + 1], base))
  }

  /** The value of a digit string, skipping the underscores between digits. */
  function DigitsValue(t: string, base: nat): nat
  {
    if t == "" then 0
    else if !IsDigit(t[|t| - 1], base) then DigitsValue(t[..|t| - 1], base)
    else DigitsValue(t[..|t| - 1], base) * base + DigitValue(t[|t| - 1], base)
  }

  /** The unsigned part of `int(t, base)`; in base 16 an optional `0x`/`0X` prefix, which may be followed by `_`. */
  function ParseUnsigned(t: string, base: nat): Option<nat>
  {
    if base == 16 && |t| >= 2 && t[0] == '0' && (t[1] == 'x' || t[1] == 'X') then
      var u := t[2..];
      var v := if |u| > 0 && u[0] == '_' then u[1..] else u;
      if ValidDigits(v, base) then Some(DigitsValue(v, base)) else None
    else if ValidDigits(t, base) then Some(DigitsValue(t, base))
    else None
  }

  /**
   * Python's `int(s, base)` for base 10 or 16 on ASCII digits: None where Python raises
   * ValueError. Other Unicode decimal digits, which Python also accepts, are refused here.
   */
  function ParseInt(s: string, base: nat): Option<int>
  {
    var t := StrStrip(s);
    if |t| > 0 && (t[0] == '-' || t[0] == '+') then
      match ParseUnsigned(t[1..], base)
      case None => None
      case Some(m) => var v: int := m; Some(if t[0] == '-' then -v else v)
    else
      match ParseUnsigned(t, base)
      case None => None
      case Some(m) => Some(m)
  }

  /** The upper-case digit character for `d`. */
  function DigitChar(d: nat, base: nat): (c: char)
    requires d < base && (base == 10 || base == 16)
    ensures IsDigit(c, base) && DigitValue(c, base) == d
  {
    if d < 10 then ('0' as int + d) as char else ('A' as int + d - 10) as char
  }

  /** The digits of `n` in `base`, most significant first, upper-case, no leading zeros. */
  function ShowNat(n: nat, base: nat): (r: string)
    requires base == 10 || base == 16
    ensures |r| > 0
    ensures forall i :: 0 <= i < |r| ==> IsDigit(r[i], base)
  {
    if n < base then [DigitChar(n, base)] else ShowNat(n / base, base) + [DigitChar(n % base, base)]
  }

  /** Python's `str(n)` in base 10 and HolyC's `%X` in base 16, with a leading `-` for negatives. */
  function Show(n: int, base: nat): (r: string)
    requires base == 10 || base == 16
    ensures |r| > 0 && r != "-"
  {
    if n < 0 then "-" + ShowNat(-n, base) else ShowNat(n, base)
  }

  lemma {:induction false} DigitsValueShowNat(n: nat, base: nat)
    requires base == 10 || base == 16
    ensures ValidDigits(ShowNat(n, base), base)
    ensures DigitsValue(ShowNat(n, base), base) == n
  {
    var r := ShowNat(n, base);
    if n >= base {
      var p := ShowNat(n / base, base);
      DigitsValueShowNat(n / base, base);
      assert r[..|r| - 1] == p;
      assert n / base * base + n % base == n;
    }
  }

  lemma ParseUnsignedShowNat(m: nat, base: nat)
    requires base == 10 || base == 16
    ensures ParseUnsigned(ShowNat(m, base), base) == Some(m)
  {
    var digits := ShowNat(m, base);
    DigitsValueShowNat(m, base);
    if |digits| >= 2 {
      assert IsDigit(digits[1], base);
    }
  }

  /** A sign and digits carry no surrounding white space. */
  lemma ShowStripped(r: string, base: nat)
    requires |r| > 0 && (r[0] == '-' || IsDigit(r[0], base)) && IsDigit(r[|r| - 1], base)
    ensures StrStrip(r) == r
  {
    assert !IsSpace(r[0]) && !IsSpace(r[|r| - 1]);
    StripNoEnds(r, IsSpace);
  }

  lemma StripShow(n: int, base: nat)
    requires base == 10 || base == 16
    ensures StrStrip(Show(n, base)) == Show(n, base)
  {
    var r := Show(n, base);
    if n >= 0 {
      assert IsDigit(r[0], base);
    }
    assert IsDigit(r[|r| - 1], base);
    ShowStripped(r, base);
  }

  /** `int()` of a `-` and digits it reads back as `m`, none of it white space. */
  lemma ParseIntSigned(r: string, m: nat, base: nat)
    requires |r| > 0 && r[0] == '-' && StrStrip(r) == r
    requires ParseUnsigned(r[1..], base) == Some(m)
    ensures ParseInt(r, base) == Some(-(m as int))
  {
  }

  /** `int()` of digits it reads back as `m`, none of it white space. */
  lemma ParseIntUnsigned(r: string, m: nat, base: nat)
    requires |r| > 0 && IsDigit(r[0], base) && StrStrip(r) == r
    requires ParseUnsigned(r, base) == Some(m)
    ensures ParseInt(r, base) == Some(m)
  {
  }

  /** The negative case: a `-` and the digits of the magnitude. */
  lemma ParseSignedShowNat(k: nat, base: nat)
    requires base == 10 || base == 16
    ensures ParseInt("-" + ShowNat(k, base), base) == Some(-(k as int))
  {
    var r := "-" + ShowNat(k, base);
    assert ParseUnsigned(r[1..], base) == Some(k) by {
      assert r[1..] == ShowNat(k, base);
      ParseUnsignedShowNat(k, base);
    }
    assert StrStrip(r) == r by {
      ShowStripped(r, base);
    }
    ParseIntSigned(r, k, base);
  }

  /** The non-negative case: the digits alone. */
  lemma ParseDigitsShowNat(k: nat, base: nat)
    requires base == 10 || base == 16
    ensures ParseInt(ShowNat(k, base), base) == Some(k)
  {
    var r := ShowNat(k, base);
    assert ParseUnsigned(r, base) == Some(k) by {
      ParseUnsignedShowNat(k, base);
    }
    assert StrStrip(r) == r by {
      ShowStripped(r, base);
    }
    ParseIntUnsigned(r, k, base);
  }

  /** `int()` reads back what `str()` (or `%X`) writes: the decimal and hexadecimal round trips. */
  lemma ParseShow(n: int, base: nat)
    requires base == 10 || base == 16
    ensures ParseInt(Show(n, base), base) == Some(n)
  {
    if n < 0 {
      var k: nat := -n;
      assert Show(n, base) == "-" + ShowNat(k, base);
      ParseSignedShowNat(k, base);
    } else {
      assert Show(n, base) == ShowNat(n, base);
      ParseDigitsShowNat(n, base);
    }
  }
}
