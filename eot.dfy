/**
 * The single-byte framing of the serial REPL tests: every response the guest sends ends
 * with one EOT byte (0x04), and a reader splits its buffer at the first EOT.
 */
module EotFrames {
  import opened Wrappers
  import opened Seqs
  import opened Bytes

  const EOT: byte := 0x04

  /** No response holds an EOT byte. */
  predicate EotFree(rs: seq<Bytes>)
  {
    forall i :: 0 <= i < |rs| ==> EOT !in rs[i]
  }

  /** Responses as they cross the wire: each one followed by EOT. */
  function Framed(rs: seq<Bytes>): (b: Bytes)
    ensures |b| >= |rs|
  {
    if rs == [] then [] else Framed(rs[..|rs| - 1]) + rs[|rs| - 1] + [EOT]
  }

  /** `buf.find(bytes([EOT]))` and the cut around it: the bytes before the first EOT and those after it, or None and the buffer as it was. */
  function SplitAtEot(buf: Bytes): (Option<Bytes>, Bytes)
  {
    match IndexOf(buf, [EOT])
    case Some(p) => (Some(buf[..p]), buf[p + 1..])
    case None => (None, buf)
  }

  /** The cut drops exactly the first EOT: response, EOT and rest make the buffer; None only when there is no EOT. */
  lemma SplitAtEotParts(buf: Bytes)
    ensures SplitAtEot(buf).0.None? <==> EOT !in buf
    ensures SplitAtEot(buf).0.None? ==> SplitAtEot(buf).1 == buf
    ensures SplitAtEot(buf).0.Some? ==>
      SplitAtEot(buf).0.value + [EOT] + SplitAtEot(buf).1 == buf && EOT !in SplitAtEot(buf).0.value
  {
    IndexOfSingle(buf, EOT);
    if IndexOf(buf, [EOT]).Some? {
      var p := IndexOf(buf, [EOT]).value;
      assert buf[..p] + [EOT] + buf[p + 1..] == buf;
    }
  }

  /** A response framed by EOT is cut off whole, whatever follows it. */
  lemma SplitAtFirstEot(r: Bytes, rest: Bytes)
    requires EOT !in r
    ensures SplitAtEot(r + [EOT] + rest) == (Some(r), rest)
  {
    var buf := r + [EOT] + rest;
    assert buf[..|r|] == r;
    IndexOfFirst(buf, EOT, |r|);
    assert buf[|r| + 1..] == rest;
  }

  lemma {:induction false} FramedCons(r: Bytes, rs: seq<Bytes>)
    ensures Framed([r] + rs) == r + [EOT] + Framed(rs)
    decreases |rs|
  {
    if rs == [] {
      assert [r] + rs == [r];
      assert [r][..0] == [];
    } else {
      var all := [r] + rs;
      var init := rs[..|rs| - 1];
      assert all[..|all| - 1] == [r] + init;
      FramedCons(r, init);
    }
  }

  lemma FramedSnoc(rs: seq<Bytes>, r: Bytes)
    ensures Framed(rs + [r]) == Framed(rs) + r + [EOT]
  {
    assert (rs + [r])[..|rs|] == rs;
  }

  /** Cutting at the first EOT of a framed run takes off its first response and leaves the others framed. */
  lemma FramedSplits(r: Bytes, rs: seq<Bytes>, tail: Bytes)
    requires EOT !in r
    ensures SplitAtEot(Framed([r] + rs) + tail) == (Some(r), Framed(rs) + tail)
  {
    FramedCons(r, rs);
    assert Framed([r] + rs) + tail == r + [EOT] + (Framed(rs) + tail);
    SplitAtFirstEot(r, Framed(rs) + tail);
  }

  /** The wire format is unambiguous: as many EOT-free responses followed by anything are fixed by the bytes. */
  lemma {:induction false} FramedUnique(a: seq<Bytes>, b: seq<Bytes>, x: Bytes, y: Bytes)
    requires EotFree(a) && EotFree(b) && |a| == |b|
    requires Framed(a) + x == Framed(b) + y
    ensures a == b && x == y
    decreases |a|
  {
    if a != [] {
      assert a == [a[0]] + a[1..] && b == [b[0]] + b[1..];
      FramedSplits(a[0], a[1..], x);
      FramedSplits(b[0], b[1..], y);
      assert EotFree(a[1..]) && EotFree(b[1..]);
      FramedUnique(a[1..], b[1..], x, y);
    } else {
      assert Framed(a) + x == x && Framed(b) + y == y;
    }
  }
}
