/**
 * The reply classifiers of the serial protocol client. Each is a pure function of the first
 * frame a command produced: `None` when no frame arrived before the deadline, otherwise the
 * frame's bytes, terminator excluded.
 */
module TempleReplies {
  import opened Wrappers
  import opened Seqs
  import opened Text
  import opened Bytes
  import opened Utf8

  /** The exceptions the client raises to its caller. */
  datatype Fault = TempleException(name: string) | ValueError(message: string)

  /** `b'EXCEPT:'`: a frame that reports an exception thrown in the guest. */
  const EXCEPT_TAG: Bytes := [0x45, 0x58, 0x43, 0x45, 0x50, 0x54, 0x3A]
  /** `b'OK'`: the REPL's own acknowledgement, seen first when the command sent nothing. */
  const OK_REPLY: Bytes := [0x4F, 0x4B]
  /** `b'1'` */
  const ONE: Bytes := [0x31]

  // --- exception codes (_decode_except_ch) ---------------------------------------

  const I64_MIN: int := -0x8000_0000_0000_0000
  const I64_MAX: int := 0x7FFF_FFFF_FFFF_FFFF

  function Pow256(k: nat): (p: nat)
    ensures p >= 1
  {
    if k == 0 then 1 else 256 * Pow256(k - 1)
  }

  /** The `k` low bytes of `u`, least significant first. */
  function LittleEndian(u: nat, k: nat): (b: Bytes)
    ensures |b| == k
  {
    if k == 0 then [] else [(u % 256) as byte] + LittleEndian(u / 256, k - 1)
  }

  /** The unsigned number that little-endian bytes stand for. */
  function Unsigned(b: Bytes): nat
  {
    if b == [] then 0 else b[0] as nat + 256 * Unsigned(b[1..])
  }

  function Zeros(n: nat): (b: Bytes)
    ensures |b| == n && forall i :: 0 <= i < n ==> b[i] == 0
  {
    seq(n, _ => 0)
  }

  /** `struct.pack('<q', n)`: two's complement in 8 bytes, least significant first. */
  function PackI64(n: int): (b: Bytes)
    requires I64_MIN <= n <= I64_MAX
    ensures |b| == 8
  {
    LittleEndian(if n < 0 then n + 0x1_0000_0000_0000_0000 else n, 8)
  }

  /** `b.decode('ascii', errors='replace')`. */
  function AsciiReplace(b: Bytes): (s: string)
    ensures |s| == |b|
  {
    seq(|b|, i requires 0 <= i < |b| => if b[i] < 0x80 then b[i] as int as char else REPLACEMENT)
  }

  /** `int(hex, 16)` when it succeeds and its value fits `struct.pack('<q', …)`. */
  function HexWord(hex: string): (r: Option<int>)
    ensures r.Some? ==> I64_MIN <= r.value <= I64_MAX
  {
    match ParseInt(hex, 16)
    case Some(n) => if I64_MIN <= n <= I64_MAX then Some(n) else None
    case None => None
  }

  /**
   * `_decode_except_ch`: never fails. A hexadecimal signed 64-bit word becomes its ASCII
   * characters, least significant byte first, with the NUL padding at the end dropped;
   * anything else comes back unchanged.
   */
  function DecodeExceptCh(hex: string): (r: string)
    ensures HexWord(hex).None? ==> r == hex
    ensures HexWord(hex).Some? ==> |r| <= 8 && (r == [] || r[|r| - 1] != '\0')
    ensures HexWord(hex).Some? ==> forall i :: 0 <= i < |r| ==> r[i] < '\U{80}' || r[i] == REPLACEMENT
  {
    match HexWord(hex)
    case None => hex
    case Some(n) => AsciiReplace(RStrip(PackI64(n), IsNul))
  }

  /** What the guest packs into an exception code: up to 8 ASCII characters, none of them NUL. */
  predicate IsCodeName(name: string)
  {
    |name| <= 8 && forall i :: 0 <= i < |name| ==> '\U{1}' <= name[i] < '\U{80}'
  }

  /** The exception code of such a name: its characters as the bytes of one word, first character lowest. */
  function ExceptCode(name: string): nat
    requires IsCodeName(name)
  {
    Unsigned(Ascii(name))
  }

  lemma {:induction false} UnsignedAsciiBound(b: Bytes)
    requires |b| > 0 && forall i :: 0 <= i < |b| ==> b[i] < 0x80
    ensures Unsigned(b) < 128 * Pow256(|b| - 1)
  {
    if |b| > 1 {
      var t := b[1..];
      assert forall i :: 0 <= i < |t| ==> t[i] == b[i + 1];
      UnsignedAsciiBound(t);
    }
  }

  lemma {:induction false} Pow256Grows(j: nat, k: nat)
    requires j <= k
    ensures Pow256(j) <= Pow256(k)
    decreases k
  {
    if j < k {
      Pow256Grows(j, k - 1);
    }
  }

  /** Writing a number back out in as many bytes as it was read from gives the bytes, then zeros. */
  lemma {:induction false} LittleEndianUnsigned(b: Bytes, k: nat)
    requires |b| <= k
    ensures LittleEndian(Unsigned(b), k) == b + Zeros(k - |b|)
    decreases k
  {
    if k > 0 {
      if b == [] {
        LittleEndianUnsigned([], k - 1);
        assert [0 as byte] + Zeros(k - 1) == Zeros(k);
      } else {
        var u := Unsigned(b[1..]);
        assert Unsigned(b) == b[0] as nat + 256 * u;
        assert Unsigned(b) % 256 == b[0] as nat && Unsigned(b) / 256 == u;
        LittleEndianUnsigned(b[1..], k - 1);
        assert b == [b[0]] + b[1..];
      }
    }
  }

  lemma RStripZeros(b: Bytes, n: nat)
    requires b == [] || b[|b| - 1] != 0
    ensures RStrip(b + Zeros(n), IsNul) == b
  {
    var s := b + Zeros(n);
    var r := RStrip(s, IsNul);
    assert forall i :: |b| <= i < |s| ==> s[i] == 0;
    assert b != [] ==> s[|b| - 1] != 0;
    assert |r| == |b|;
    assert r == s[..|b|];
  }

  /** The code of a name fits a signed 64-bit word without touching the sign bit. */
  lemma ExceptCodeFits(name: string)
    requires IsCodeName(name)
    ensures ExceptCode(name) <= I64_MAX
  {
    var b := Ascii(name);
    if b != [] {
      UnsignedAsciiBound(b);
      Pow256Grows(|b| - 1, 7);
      assert Pow256(7) == 0x100_0000_0000_0000;
    }
  }

  /** The ASCII bytes of a name with no NUL, read back with replacement, are the name. */
  lemma AsciiBack(name: string)
    requires IsCodeName(name)
    ensures AsciiReplace(Ascii(name)) == name
    ensures Ascii(name) == [] || Ascii(name)[|name| - 1] != 0
  {
  }

  /** The code printed in hexadecimal reads back as the same signed word. */
  lemma CodeHexWord(name: string)
    requires IsCodeName(name)
    ensures HexWord(Show(ExceptCode(name), 16)) == Some(ExceptCode(name))
  {
    ExceptCodeFits(name);
    ParseShow(ExceptCode(name), 16);
  }

  /** Packing the code and dropping the NUL padding gives the name's bytes back. */
  lemma CodePackStrip(name: string)
    requires IsCodeName(name)
    ensures ExceptCode(name) <= I64_MAX
    ensures RStrip(PackI64(ExceptCode(name)), IsNul) == Ascii(name)
  {
    var b := Ascii(name);
    ExceptCodeFits(name);
    LittleEndianUnsigned(b, 8);
    AsciiBack(name);
    RStripZeros(b, 8 - |b|);
  }

  /** An exception name packed into its code and printed in hexadecimal decodes back to the name. */
  lemma ExceptCodeRoundTrip(name: string)
    requires IsCodeName(name)
    ensures DecodeExceptCh(Show(ExceptCode(name), 16)) == name
  {
    CodeHexWord(name);
    CodePackStrip(name);
    AsciiBack(name);
  }

  lemma CompilerBytes()
    ensures IsCodeName("Compiler")
    ensures Ascii("Compiler") == [0x43, 0x6F, 0x6D, 0x70, 0x69, 0x6C, 0x65, 0x72]
  {
  }

  lemma CompilerWord(b: Bytes)
    requires b == [0x43, 0x6F, 0x6D, 0x70, 0x69, 0x6C, 0x65, 0x72]
    ensures Unsigned(b) == 0x72656C69706D6F43
  {
    assert b[1..][1..][1..][1..][1..][1..][1..][1..] == [];
    assert Unsigned(b[1..][1..][1..][1..][1..][1..][1..]) == 0x72;
    assert Unsigned(b[1..][1..][1..][1..][1..][1..]) == 0x7265;
    assert Unsigned(b[1..][1..][1..][1..][1..]) == 0x72656C;
    assert Unsigned(b[1..][1..][1..][1..]) == 0x72656C69;
    assert Unsigned(b[1..][1..][1..]) == 0x72656C6970;
    assert Unsigned(b[1..][1..]) == 0x72656C69706D;
    assert Unsigned(b[1..]) == 0x72656C69706D6F;
  }

  /** The example of the source's documentation: `'Compiler'` is the word 0x72656C69706D6F43. */
  lemma CompilerCode()
    ensures IsCodeName("Compiler") && ExceptCode("Compiler") == 0x72656C69706D6F43
    ensures DecodeExceptCh(Show(0x72656C69706D6F43, 16)) == "Compiler"
  {
    CompilerBytes();
    CompilerWord(Ascii("Compiler"));
    ExceptCodeRoundTrip("Compiler");
  }

  // --- list_dir ------------------------------------------------------------

  /** The lines of a `SerDir` frame: none for a missing or empty frame. */
  function DirLines(raw: Option<Bytes>): seq<string>
  {
    if raw.None? || raw.value == [] then [] else SplitLines(StrStrip(Decode(raw.value)))
  }

  /** One listing line with its NULs removed and its whitespace stripped. */
  function CleanEntry(line: string): (e: string)
    ensures '\0' !in e
    ensures e == [] || (!IsSpace(e[0]) && !IsSpace(e[|e| - 1]))
  {
    var s := Remove(line, '\0');
    var e := StrStrip(s);
    NotInSlice(s, Lead(s, IsSpace), Lead(s, IsSpace) + |e|, '\0');
    e
  }

  /** The entries the listing keeps: absolute `C:/` paths other than the `.` and `..` links. */
  predicate IsDirEntry(e: string)
  {
    e != "" && !EndsWith(e, "/.") && !EndsWith(e, "/..") && "C:/" <= e
  }

  /** What every listed entry is: a kept path, free of NULs and of surrounding whitespace. */
  predicate IsListed(e: string)
  {
    IsDirEntry(e) && '\0' !in e && !IsSpace(e[0]) && !IsSpace(e[|e| - 1])
  }

  /** The entry a listing line gives, if it passes the filter. */
  function DirEntryOf(line: string): (r: Option<string>)
    ensures r.Some? ==> IsListed(r.value)
  {
    var e := CleanEntry(line);
    if IsDirEntry(e) then Some(e) else None
  }

  /** The entries of a run of listing lines, in line order. */
  function KeptEntries(lines: seq<string>): seq<string>
  {
    FilterMap(lines, DirEntryOf)
  }

  /** An entry is listed exactly when it passes the filter and some line cleans to it; it is then free of NULs and whitespace. */
  lemma KeptEntriesMembers(lines: seq<string>, e: string)
    ensures e in KeptEntries(lines) <==> IsDirEntry(e) && exists k :: 0 <= k < |lines| && CleanEntry(lines[k]) == e
    ensures e in KeptEntries(lines) ==> IsListed(e)
  {
    FilterMapMembers(lines, DirEntryOf, e);
  }

  /** Lines are processed in order: the entries of two runs of lines are the entries of each, one after the other. */
  lemma KeptEntriesAppend(a: seq<string>, b: seq<string>)
    ensures KeptEntries(a + b) == KeptEntries(a) + KeptEntries(b)
  {
    FilterMapAppend(a, b, DirEntryOf);
  }

  /** The filtering loop of `list_dir`. */
  method FilterListing(lines: seq<string>) returns (result: seq<string>)
    ensures result == KeptEntries(lines)
  {
    result := [];
    for i := 0 to |lines|
      invariant result == KeptEntries(lines[..i])
    {
      var l := CleanEntry(lines[i]);
      ListingNext(lines, i, result);
      if IsDirEntry(l) {
        result := result + [l];
      }
    }
    assert lines[..|lines|] == lines;
  }

  /** One more line: its entry joins the kept entries exactly when it passes the filter. */
  lemma ListingNext(lines: seq<string>, i: nat, result: seq<string>)
    requires i < |lines| && result == KeptEntries(lines[..i])
    ensures IsDirEntry(CleanEntry(lines[i])) ==> KeptEntries(lines[..i + 1]) == result + [CleanEntry(lines[i])]
    ensures !IsDirEntry(CleanEntry(lines[i])) ==> KeptEntries(lines[..i + 1]) == result
  {
    TakeNext(lines, i);
    FilterMapSnoc(lines[..i], lines[i], DirEntryOf);
    assert result + [] == result;
  }

  /** `list_dir` on the frame of `SerDir`: nothing for a missing or empty frame, else the filtered lines. */
  method ParseDirListing(raw: Option<Bytes>) returns (result: seq<string>)
    ensures result == KeptEntries(DirLines(raw))
  {
    if raw.None? || raw.value == [] {
      return [];
    }
    var lines := SplitLines(StrStrip(Decode(raw.value)));
    result := FilterListing(lines);
  }

  // --- file_exists, exec_i64, exec_str, symbol_exists ------------------------

  /** `file_exists` on the frame of `SerFileExists`. */
  function FileExistsReply(raw: Option<Bytes>): bool
  {
    raw.Some? && BytesStrip(raw.value) == ONE
  }

  /** One `1` with nothing but ASCII whitespace around it. */
  predicate IsLoneOne(v: Bytes)
  {
    exists i :: 0 <= i < |v| && v[i] == 0x31 && forall j :: 0 <= j < |v| && j != i ==> IsAsciiSpace(v[j])
  }

  lemma StrippedOne(v: Bytes)
    requires BytesStrip(v) == ONE
    ensures IsLoneOne(v)
  {
    var i := Lead(v, IsAsciiSpace);
    assert v[i] == 0x31;
    assert forall j :: 0 <= j < |v| && j != i ==> IsAsciiSpace(v[j]);
  }

  lemma LoneOneStrips(v: Bytes, i: nat)
    requires i < |v| && v[i] == 0x31 && forall j :: 0 <= j < |v| && j != i ==> IsAsciiSpace(v[j])
    ensures BytesStrip(v) == ONE
  {
    var pre, post := v[..i], v[i + 1..];
    SplitAround(v, i);
    assert [v[i]] == ONE;
    assert forall j :: 0 <= j < |pre| ==> IsAsciiSpace(pre[j]) by {
      forall j | 0 <= j < |pre| ensures IsAsciiSpace(pre[j]) { assert pre[j] == v[j]; }
    }
    assert forall j :: 0 <= j < |post| ==> IsAsciiSpace(post[j]) by {
      forall j | 0 <= j < |post| ensures IsAsciiSpace(post[j]) { assert post[j] == v[i + 1 + j]; }
    }
    StripUnique(pre, ONE, post, IsAsciiSpace);
  }

  /** A file exists exactly when the frame is one `1` with nothing but ASCII whitespace around it. */
  lemma FileExistsIff(raw: Option<Bytes>)
    ensures FileExistsReply(raw) <==> raw.Some? && IsLoneOne(raw.value)
  {
    if raw.Some? {
      var v := raw.value;
      if BytesStrip(v) == ONE {
        StrippedOne(v);
      }
      if IsLoneOne(v) {
        var i :| 0 <= i < |v| && v[i] == 0x31 && forall j :: 0 <= j < |v| && j != i ==> IsAsciiSpace(v[j]);
        LoneOneStrips(v, i);
      }
    }
  }

  /** The name a frame `EXCEPT:<name>` reports: the rest, decoded and stripped. */
  function ExceptName(raw: Bytes): string
    requires EXCEPT_TAG <= raw
  {
    StrStrip(Decode(raw[|EXCEPT_TAG|..]))
  }

  /** `exec_i64` on the frame of `SerGetI64(g_r);`. */
  function ExecI64Reply(raw: Option<Bytes>): (r: Result<Option<int>, Fault>)
    ensures r.Failure? && r.error.TempleException? <==> raw.Some? && EXCEPT_TAG <= raw.value
    ensures r == Success(None) <==> raw.None? || (!(EXCEPT_TAG <= raw.value) && StrStrip(Decode(raw.value)) == "")
  {
    if raw.None? then Success(None)
    else if EXCEPT_TAG <= raw.value then Failure(TempleException(ExceptName(raw.value)))
    else
      var s := StrStrip(Decode(raw.value));
      if s == "" then Success(None)
      else
        match ParseInt(s, 10)
        case Some(n) => Success(Some(n))
        case None => Failure(ValueError(s))
  }

  lemma ShowIsAscii(n: int)
    ensures IsAsciiText(Show(n, 10))
    ensures Show(n, 10)[0] == '-' || '0' <= Show(n, 10)[0] <= '9'
  {
    var r := Show(n, 10);
    if n < 0 {
      assert forall i :: 1 <= i < |r| ==> r[i] == ShowNat(-n, 10)[i - 1];
    }
  }

  /** A number printed in decimal reads back as that number. */
  lemma ExecI64Number(n: int)
    ensures IsAsciiText(Show(n, 10))
    ensures ExecI64Reply(Some(Ascii(Show(n, 10)))) == Success(Some(n))
  {
    var s := Show(n, 10);
    ShowIsAscii(n);
    EncodeAscii(s);
    DecodeEncode(s);
    assert Ascii(s)[0] != EXCEPT_TAG[0];
    StripShow(n, 10);
    ParseShow(n, 10);
  }

  /** A frame `EXCEPT:<name>` raises `TempleException` with the stripped name. */
  lemma ExecI64Except(name: string)
    ensures ExecI64Reply(Some(EXCEPT_TAG + Encode(name))) == Failure(TempleException(StrStrip(name)))
  {
    assert (EXCEPT_TAG + Encode(name))[|EXCEPT_TAG|..] == Encode(name);
    DecodeEncode(name);
  }

  /** `exec_str` on the frame of `GStrReset();<code>SerSendStr();`. */
  function ExecStrReply(raw: Option<Bytes>): (r: Result<string, Fault>)
    ensures r == Failure(TempleException("exception")) <==> (raw == Some(OK_REPLY)
      || (raw.Some? && EXCEPT_TAG <= raw.value && ExceptName(raw.value) == "exception"))
    ensures r.Success? && r.value == "" ==> raw.None? || raw.value == []
  {
    if raw == Some(OK_REPLY) then Failure(TempleException("exception"))
    else if raw.Some? && raw.value != [] && EXCEPT_TAG <= raw.value then Failure(TempleException(ExceptName(raw.value)))
    else if raw.Some? && raw.value != [] then Success(Decode(raw.value))
    else Success("")
  }

  /** The leading bytes of an encoding that are ASCII are the leading characters of the text. */
  lemma {:induction false} AsciiPrefixOfEncode(p: string, text: string)
    requires IsAsciiText(p) && Ascii(p) <= Encode(text)
    ensures p <= text
  {
    if p != [] {
      var a, e := Ascii(p), Encode(text);
      assert e[0] == a[0] && a[0] as int == p[0] as int;
      EncodeAsciiHead(text);
      PrefixTail(a, e);
      assert a[1..] == Ascii(p[1..]);
      assert e[1..] == Encode(text[1..]);
      AsciiPrefixOfEncode(p[1..], text[1..]);
      PrefixByHead(p, text);
    }
  }

  /** `exec_str` returns the guest's text unchanged, except for the two replies that mean an exception. */
  lemma ExecStrText(text: string)
    requires text != "OK" && !("EXCEPT:" <= text)
    ensures ExecStrReply(Some(Encode(text))) == Success(text)
  {
    var b := Encode(text);
    DecodeEncode(text);
    assert IsAsciiText("EXCEPT:") && Ascii("EXCEPT:") == EXCEPT_TAG;
    if EXCEPT_TAG <= b {
      AsciiPrefixOfEncode("EXCEPT:", text);
    }
    assert Decode(OK_REPLY) == "OK";
    assert b == [] ==> text == "";
  }

  /** A frame `EXCEPT:<name>` raises `TempleException` with the stripped name. */
  lemma ExecStrExcept(name: string)
    ensures ExecStrReply(Some(EXCEPT_TAG + Encode(name))) == Failure(TempleException(StrStrip(name)))
  {
    assert (EXCEPT_TAG + Encode(name))[|EXCEPT_TAG|..] == Encode(name);
    DecodeEncode(name);
  }

  /** `symbol_exists` on what `exec_str` gave; an exception passes through. */
  function SymbolExistsReply(r: Result<string, Fault>): Result<bool, Fault>
  {
    match r
    case Success(s) => Success(s == "1")
    case Failure(e) => Failure(e)
  }

  /** The first character that decoding produces is ASCII only when the first byte is that character. */
  lemma DecodeHead(b: Bytes)
    requires b != []
    ensures Decode(b) != "" && (Decode(b)[0] < '\U{80}' ==> b[0] as int == Decode(b)[0] as int)
  {
    var n := LeadLength(b[0]);
    if n >= 2 && ValidTail(b) == n - 1 {
      CodePointHigh(b[..n]);
    }
  }

  lemma CodePointHigh(b: Bytes)
    requires |b| > 0 && LeadLength(b[0]) >= 2 && |b| == LeadLength(b[0]) && ValidTail(b) == |b| - 1
    ensures CodePoint(b) as int >= 0x80
  {
  }

  /** A symbol exists exactly when the frame is the single byte `1`. */
  lemma SymbolExistsIff(raw: Option<Bytes>)
    ensures SymbolExistsReply(ExecStrReply(raw)) == Success(true) <==> raw == Some(ONE)
  {
    if raw.Some? && raw.value != [] && raw != Some(OK_REPLY) && !(EXCEPT_TAG <= raw.value) {
      var b := raw.value;
      DecodeHead(b);
      if Decode(b) == "1" {
        assert b[0] == 0x31;
        assert Decode(b) == "1" + Decode(b[1..]);
        assert b[1..] == [] by {
          if b[1..] != [] { DecodeHead(b[1..]); }
        }
        assert b == ONE;
      }
    }
    assert Decode(ONE) == "1";
  }

  // --- list_symbols, exec_rows, exec_kv ------------------------------------------

  /** The mask `SerSymList` takes for a kind of symbol; an unknown kind means functions. */
  function SymbolMask(kind: string): nat
  {
    if kind == "functions" then 64
    else if kind == "globals" then 8
    else if kind == "classes" then 16
    else if kind == "all" then 131071
    else 64
  }

  function Pow2(k: nat): (p: nat)
    ensures p >= 1
  {
    if k == 0 then 1 else 2 * Pow2(k - 1)
  }

  /** Bit `k` of `mask` is set. */
  predicate HasBit(mask: nat, k: nat)
  {
    (mask / Pow2(k)) % 2 == 1
  }

  /** Functions, globals and classes are one bit each of the guest's symbol-type mask, and `all` sets the 17 low bits. */
  lemma SymbolMaskBits()
    ensures SymbolMask("functions") == Pow2(6) && SymbolMask("globals") == Pow2(3) && SymbolMask("classes") == Pow2(4)
    ensures SymbolMask("all") == Pow2(17) - 1
    ensures HasBit(SymbolMask("all"), 6) && HasBit(SymbolMask("all"), 3) && HasBit(SymbolMask("all"), 4)
    ensures forall kind :: kind != "globals" && kind != "classes" && kind != "all" ==> SymbolMask(kind) == Pow2(6)
  {
    assert Pow2(3) == 8 && Pow2(4) == 16 && Pow2(6) == 64;
    assert Pow2(17) == 131072;
  }

  /** `[line for line in lines if line]` */
  function NonEmptyLines(lines: seq<string>): (r: seq<string>)
    ensures |r| <= |lines|
    ensures forall k :: 0 <= k < |r| ==> r[k] != ""
  {
    if lines == [] then []
    else NonEmptyLines(lines[..|lines| - 1]) + (if lines[|lines| - 1] == "" then [] else [lines[|lines| - 1]])
  }

  /** The kept lines are exactly the non-empty ones. */
  lemma {:induction false} NonEmptyLinesMembers(lines: seq<string>, l: string)
    ensures l in NonEmptyLines(lines) <==> l in lines && l != ""
  {
    if lines != [] {
      var init := lines[..|lines| - 1];
      NonEmptyLinesMembers(init, l);
      assert lines == init + [lines[|lines| - 1]];
    }
  }

  /** Keeping the non-empty lines of two runs one after the other keeps their order. */
  lemma {:induction false} NonEmptyLinesAppend(a: seq<string>, b: seq<string>)
    ensures NonEmptyLines(a + b) == NonEmptyLines(a) + NonEmptyLines(b)
    decreases |b|
  {
    if b == [] {
      assert a + b == a;
    } else {
      var init := b[..|b| - 1];
      assert (a + b)[..|a + b| - 1] == a + init;
      NonEmptyLinesAppend(a, init);
    }
  }

  /** `[line.split('\t') for line in lines if line]` */
  function RowsOf(lines: seq<string>): (rows: seq<seq<string>>)
    ensures |rows| == |NonEmptyLines(lines)|
    ensures forall k :: 0 <= k < |rows| ==> rows[k] != []
    ensures forall k, j :: 0 <= k < |rows| && 0 <= j < |rows[k]| ==> '\t' !in rows[k][j]
  {
    if lines == [] then []
    else
      var last := lines[|lines| - 1];
      RowsOf(lines[..|lines| - 1]) + (if last == "" then [] else [Split(last, '\t')])
  }

  /** The tab-separated rows of a text, one per non-empty line. */
  function Rows(text: string): seq<seq<string>>
  {
    RowsOf(SplitLines(text))
  }

  function JoinEach(rows: seq<seq<string>>, sep: char): (r: seq<string>)
    ensures |r| == |rows|
  {
    if rows == [] then [] else JoinEach(rows[..|rows| - 1], sep) + [Join(rows[|rows| - 1], sep)]
  }

  /** Nothing is lost in the rows: joining each row back with tabs gives the non-empty lines. */
  lemma {:induction false} RowsJoin(lines: seq<string>)
    ensures JoinEach(RowsOf(lines), '\t') == NonEmptyLines(lines)
  {
    if lines != [] {
      var init, last := lines[..|lines| - 1], lines[|lines| - 1];
      RowsJoin(init);
      if last != "" {
        JoinSplit(last, '\t');
        var rows := RowsOf(init) + [Split(last, '\t')];
        assert rows[..|rows| - 1] == RowsOf(init);
      } else {
        assert RowsOf(lines) == RowsOf(init);
      }
    }
  }

  /** The field at `i`, or `''` when the row is shorter (`r[i] if len(r) > i else ''`). */
  function Field(row: seq<string>, i: nat): string
  {
    if i < |row| then row[i] else ""
  }

  /** A row joined back is its first field, or its first field and a tab, then its second field, then the rest after a tab. */
  lemma JoinFields(row: seq<string>, sep: char)
    requires row != []
    ensures var j := Join(row, sep);
      (|row| == 1 && j == row[0])
      || (|row| == 2 && j == row[0] + [sep] + Field(row, 1))
      || (|row| > 2 && row[0] + [sep] + Field(row, 1) + [sep] <= j)
  {
    if |row| > 2 {
      assert row[1..][1..] != [];
      assert Join(row, sep) == row[0] + [sep] + (row[1] + [sep] + Join(row[2..], sep));
      assert row[1..][1..] == row[2..];
    } else if |row| == 2 {
      assert Join(row[1..], sep) == row[1];
    }
  }

  /** What `list_symbols` returns: names, or (name, kind) pairs. */
  datatype SymbolList = Names(names: seq<string>) | Detailed(entries: seq<(string, string)>)

  function ListSymbolsRows(raw: Option<Bytes>): (rows: seq<seq<string>>)
    ensures forall k :: 0 <= k < |rows| ==> rows[k] != []
  {
    if raw.None? || raw.value == [] then [] else RowsOf(SplitLines(Decode(raw.value)))
  }

  /** `list_symbols` on the frame of `SerSymList(mask);`. */
  function ListSymbolsReply(raw: Option<Bytes>, detailed: bool): (r: SymbolList)
    ensures r.Names? <==> !detailed
  {
    var rows := ListSymbolsRows(raw);
    if detailed then Detailed(seq(|rows|, k requires 0 <= k < |rows| => (rows[k][0], Field(rows[k], 1))))
    else Names(seq(|rows|, k requires 0 <= k < |rows| => rows[k][0]))
  }

  /** The non-empty lines of a symbol listing. */
  function SymbolLines(raw: Option<Bytes>): seq<string>
  {
    if raw.None? || raw.value == [] then [] else NonEmptyLines(SplitLines(Decode(raw.value)))
  }

  /**
   * One symbol per non-empty line, in order: its name is the line up to the first tab,
   * its kind the text between the first and the second tab ('' when there is none).
   */
  lemma ListSymbolsLines(raw: Option<Bytes>)
    ensures var lines, names := SymbolLines(raw), ListSymbolsReply(raw, false).names;
      |names| == |lines| && forall k :: 0 <= k < |lines| ==> '\t' !in names[k] && (lines[k] == names[k] || names[k] + ['\t'] <= lines[k])
    ensures var lines, entries := SymbolLines(raw), ListSymbolsReply(raw, true).entries;
      |entries| == |lines| && forall k :: 0 <= k < |lines| ==>
        var (name, kind) := entries[k];
        name == ListSymbolsReply(raw, false).names[k] && '\t' !in kind
        && (lines[k] == name || lines[k] == name + ['\t'] + kind || name + ['\t'] + kind + ['\t'] <= lines[k])
  {
    var rows := ListSymbolsRows(raw);
    var lines := SymbolLines(raw);
    if raw.Some? && raw.value != [] {
      RowsJoin(SplitLines(Decode(raw.value)));
    }
    assert JoinEach(rows, '\t') == lines;
    var names, entries := ListSymbolsReply(raw, false).names, ListSymbolsReply(raw, true).entries;
    forall k | 0 <= k < |lines|
      ensures '\t' !in names[k] && (lines[k] == names[k] || names[k] + ['\t'] <= lines[k])
      ensures entries[k] == (names[k], Field(rows[k], 1)) && '\t' !in Field(rows[k], 1)
      ensures lines[k] == names[k] || lines[k] == names[k] + ['\t'] + Field(rows[k], 1)
        || names[k] + ['\t'] + Field(rows[k], 1) + ['\t'] <= lines[k]
    {
      JoinEachAt(rows, '\t', k);
      RowFields(rows[k]);
    }
  }

  /** The name and kind of one row are tab-free, and the row's line is the name, the name and kind, or starts with both and a tab. */
  lemma RowFields(row: seq<string>)
    requires row != [] && forall j :: 0 <= j < |row| ==> '\t' !in row[j]
    ensures '\t' !in row[0] && '\t' !in Field(row, 1)
    ensures var j := Join(row, '\t'); j == row[0] || row[0] + ['\t'] <= j
    ensures var j, kind := Join(row, '\t'), Field(row, 1);
      j == row[0] || j == row[0] + ['\t'] + kind || row[0] + ['\t'] + kind + ['\t'] <= j
  {
    JoinFields(row, '\t');
    var j, kind := Join(row, '\t'), Field(row, 1);
    if j != row[0] {
      assert (row[0] + ['\t'] + kind)[..|row[0]| + 1] == row[0] + ['\t'];
    }
  }

  lemma {:induction false} JoinEachAt(rows: seq<seq<string>>, sep: char, k: nat)
    requires k < |rows|
    ensures JoinEach(rows, sep)[k] == Join(rows[k], sep)
  {
    if k < |rows| - 1 {
      JoinEachAt(rows[..|rows| - 1], sep, k);
    }
  }

  /** `{r[0]: (r[1] if len(r) > 1 else '') for r in rows if r}`: later rows overwrite earlier ones. */
  function KeyValues(rows: seq<seq<string>>): map<string, string>
  {
    if rows == [] then map[]
    else
      var r := rows[|rows| - 1];
      var m := KeyValues(rows[..|rows| - 1]);
      if r == [] then m else m[r[0] := Field(r, 1)]
  }

  /** A key is present exactly when some row starts with it, and its value comes from the last such row. */
  lemma {:induction false} KeyValuesLastWins(rows: seq<seq<string>>, key: string)
    ensures key in KeyValues(rows) <==> exists i :: 0 <= i < |rows| && rows[i] != [] && rows[i][0] == key
    ensures forall i ::
      (0 <= i < |rows| && rows[i] != [] && rows[i][0] == key
       && forall j :: i < j < |rows| && rows[j] != [] ==> rows[j][0] != key)
      ==> key in KeyValues(rows) && KeyValues(rows)[key] == Field(rows[i], 1)
  {
    if rows != [] {
      var init, r := rows[..|rows| - 1], rows[|rows| - 1];
      KeyValuesLastWins(init, key);
      assert forall i :: 0 <= i < |init| ==> init[i] == rows[i];
      if r == [] || r[0] != key {
        assert (exists i :: 0 <= i < |rows| && rows[i] != [] && rows[i][0] == key) ==>
          exists i :: 0 <= i < |init| && init[i] != [] && init[i][0] == key;
      }
    }
  }
}
