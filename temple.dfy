/**
 * The client side of the framed serial protocol spoken with the guest's REPL: every command
 * line is answered by two frames, each ended by the 8-byte terminator `TERM` (the command's
 * own payload, then the REPL's acknowledgement), and a file upload runs a small
 * sub-protocol of single `\x04` bytes.
 */
module TempleProtocol {
  import opened Wrappers
  import opened Seqs
  import opened Text
  import opened Bytes
  import opened Utf8
  import opened Sockets
  import opened TempleReplies

  /** `\x04\xCA\xFE\xBA\xBE\x04\xFA\xCE`, the end of every frame. */
  const TERM: Bytes := [0x04, 0xCA, 0xFE, 0xBA, 0xBE, 0x04, 0xFA, 0xCE]
  /** The size of every `recv` of the frame reader. */
  const RECV_SIZE: nat := 512
  /** The deadline of the read that consumes the acknowledgement frame, in receive attempts. */
  const DRAIN_TIMEOUT: nat := 3
  /** The single byte the guest sends when it is ready for an upload, and that ends the upload. */
  const EOT: byte := 0x04
  /** The size of every `recv`, and the deadline, of the wait for the upload's ready byte. */
  const READY_RECV: nat := 256
  const WRITE_TIMEOUT: nat := 10
  /** The default deadline of a `Temple`, for every read not given one. */
  const DEFAULT_TIMEOUT: nat := 20
  /** The deadline of `read_file`. */
  const READ_TIMEOUT: nat := 30
  /** The deadline of `is_frozen`'s probe, and of the read that drains its acknowledgement. */
  const PROBE_TIMEOUT: nat := 3
  const PROBE_DRAIN_TIMEOUT: nat := 2

  /** Files the client refuses to download. */
  const BANNED_FILES: set<string> := {"C:/Adam/AutoComplete/ACDefs.DATA", "C:/Adam/AutoComplete/ACWords.DATA.Z"}

  // --- frames -----------------------------------------------------------------

  /** The first frame in a buffer and what follows its terminator; `(None, b'')` while there is no terminator. */
  function FirstFrame(buf: Bytes): (Option<Bytes>, Bytes)
  {
    match IndexOf(buf, TERM)
    case Some(i) => (Some(buf[..i]), buf[i + |TERM|..])
    case None => (None, [])
  }

  /** The frame a run of receives produced. */
  function Reply(events: seq<Event>): Option<Bytes>
  {
    FirstFrame(Data(events)).0
  }

  /** A frame is everything before the first terminator: frame, terminator and rest make up the buffer. */
  lemma FirstFrameSplits(buf: Bytes)
    ensures FirstFrame(buf).0.None? <==> !Contains(buf, TERM)
    ensures FirstFrame(buf).0.None? ==> FirstFrame(buf).1 == []
    ensures FirstFrame(buf).0.Some? ==>
      FirstFrame(buf).0.value + TERM + FirstFrame(buf).1 == buf && !Contains(FirstFrame(buf).0.value, TERM)
  {
    if Contains(buf, TERM) {
      var i := IndexOf(buf, TERM).value;
      var c := buf[..i];
      assert buf == c + buf[i..];
      forall j | OccursAt(c, TERM, j)
        ensures OccursAt(buf, TERM, j)
      {
        OccursInPrefix(c, buf[i..], TERM, j);
      }
      SplitAt(buf[i..], |TERM|);
      assert buf[i..][..|TERM|] == buf[i..i + |TERM|] == TERM;
      assert buf[i..][|TERM|..] == buf[i + |TERM|..];
      AppendAssoc(c, TERM, buf[i + |TERM|..]);
    }
  }

  /** No proper suffix of the terminator is also a prefix of it, so two occurrences never overlap. */
  lemma TermHasNoBorder()
    ensures forall d :: 0 < d < |TERM| ==> TERM[d..] != TERM[..|TERM| - d]
  {
    forall d | 0 < d < |TERM|
      ensures TERM[d..] != TERM[..|TERM| - d]
    {
      if d == 5 {
        assert TERM[d..][1] != TERM[..|TERM| - d][1];
      } else {
        assert TERM[d..][0] != TERM[..|TERM| - d][0];
      }
    }
  }

  /** Framing reads back: a payload without a terminator, framed and followed by anything, is found as the first frame. */
  lemma FrameRoundTrip(c: Bytes, rest: Bytes)
    requires !Contains(c, TERM)
    ensures FirstFrame(c + TERM + rest) == (Some(c), rest)
  {
    var buf := c + TERM + rest;
    assert buf[|c|..|c| + |TERM|] == TERM;
    assert OccursAt(buf, TERM, |c|);
    TermHasNoBorder();
    forall j | 0 <= j < |c|
      ensures !OccursAt(buf, TERM, j)
    {
      if j + |TERM| <= |c| {
        assert buf[j..j + |TERM|] == c[j..j + |TERM|];
        assert !OccursAt(c, TERM, j);
      } else {
        var d := |c| - j;
        assert buf[j..j + |TERM|][d..] == buf[|c|..j + |TERM|];
        assert buf[|c|..j + |TERM|] == TERM[..|TERM| - d];
        assert TERM[d..] != TERM[..|TERM| - d];
      }
    }
    assert buf[..|c|] == c;
    assert buf[|c| + |TERM|..] == rest;
    assert IndexOf(buf, TERM) == Some(|c|);
  }

  /** The frame depends only on the bytes received, not on how they were cut into chunks: it is the first frame of the stream. */
  lemma FrameOfStream(buf: Bytes, stream: Bytes)
    requires buf <= stream && Contains(buf, TERM)
    ensures FirstFrame(buf).0 == FirstFrame(stream).0
  {
    assert stream == buf + stream[|buf|..];
    ContainsGrows(buf, stream[|buf|..], TERM);
    var i := IndexOf(buf, TERM).value;
    assert IndexOf(stream, TERM) == Some(i);
    assert stream[..i] == buf[..i];
  }

  /** The receives of one `_recv_until_term(budget)` against the queued `before`, which leave `after` queued. */
  ghost predicate FrameRead(before: seq<Event>, events: seq<Event>, after: seq<Event>, budget: nat)
  {
    (events, after) == Receive(before, RECV_SIZE, |events|) && ReadUntil([], events, budget, TERM)
  }

  /** Where the read of a frame stops, its buffer is all it received, so its frame is the first frame of that. */
  lemma FrameStops(before: seq<Event>, events: seq<Event>, after: seq<Event>, budget: nat, buf: Bytes)
    requires (events, after) == Receive(before, RECV_SIZE, |events|)
    requires Reading([], events, budget, TERM, buf) && (Contains(buf, TERM) || |events| == budget)
    ensures FrameRead(before, events, after, budget)
    ensures FirstFrame(Data(events)) == FirstFrame(buf)
  {
    ReadingStops([], events, budget, TERM, buf);
  }

  /** A terminator that straddles two chunks is still found, because the search runs on the whole buffer after every chunk. */
  lemma SplitTerminatorFound(a: Bytes, k: nat, b: Bytes, budget: nat)
    requires 0 < k < |TERM| && !Contains(a, TERM) && 2 <= budget
    requires |a| + k <= RECV_SIZE && |TERM| - k + |b| <= RECV_SIZE
    ensures var script := [Chunk(a + TERM[..k]), Chunk(TERM[k..] + b)];
      FrameRead(script, script, [], budget) && Reply(script) == Some(a)
  {
    var x := a + TERM[..k];
    var y := TERM[k..] + b;
    StraddledFrame(a, k, b);
    ReceiveTwo(Chunk(x), Chunk(y), RECV_SIZE);
    DataTwo(Chunk(x), Chunk(y));
    TwoChunkRead(x, y, a, budget);
  }

  /** The terminator cut after its `k`-th byte: the first part holds none, the whole has `a` as its first frame. */
  lemma StraddledFrame(a: Bytes, k: nat, b: Bytes)
    requires 0 < k < |TERM| && !Contains(a, TERM)
    ensures !Contains(a + TERM[..k], TERM)
    ensures Contains((a + TERM[..k]) + (TERM[k..] + b), TERM)
    ensures FirstFrame((a + TERM[..k]) + (TERM[k..] + b)).0 == Some(a)
  {
    var whole := (a + TERM[..k]) + (TERM[k..] + b);
    assert whole == a + TERM + b;
    FrameRoundTrip(a, b);
    FirstFrameSplits(whole);
    assert IndexOf(whole, TERM) == Some(|a|);
    NotContainsBefore(a + TERM[..k], TERM[k..] + b, TERM, |a|);
  }

  /** Two chunks, the terminator complete only in both: two receives, and the frame of the whole. */
  lemma TwoChunkRead(x: Bytes, y: Bytes, c: Bytes, budget: nat)
    requires 2 <= budget && !Contains(x, TERM) && Contains(x + y, TERM) && FirstFrame(x + y).0 == Some(c)
    requires Receive([Chunk(x), Chunk(y)], RECV_SIZE, 2) == ([Chunk(x), Chunk(y)], [])
    requires Data([Chunk(x), Chunk(y)]) == x + y && Data([Chunk(x), Chunk(y)][..1]) == x
    ensures FrameRead([Chunk(x), Chunk(y)], [Chunk(x), Chunk(y)], [], budget)
    ensures Reply([Chunk(x), Chunk(y)]) == Some(c)
  {
    var script := [Chunk(x), Chunk(y)];
    assert [] + Data(script) == x + y;
    assert [] + Data(script[..1]) == x;
  }

  lemma {:induction false} ReceiveNothing(max: nat, n: nat)
    requires max > 0
    ensures Receive([], max, n).1 == [] && forall i :: 0 <= i < n ==> Receive([], max, n).0[i] == Timeout
  {
    if n > 0 {
      ReceiveNothing(max, n - 1);
    }
  }

  lemma {:induction false} DataOfTimeouts(es: seq<Event>)
    requires forall i :: 0 <= i < |es| ==> es[i] == Timeout
    ensures Data(es) == []
  {
    if es != [] {
      DataOfTimeouts(es[..|es| - 1]);
    }
  }

  /** A read against a single queued chunk that holds a terminator takes exactly that chunk and leaves nothing queued. */
  lemma OneChunkFrameRead(chunk: Bytes, first: seq<Event>, mid: seq<Event>, budget: nat)
    requires Contains(chunk, TERM) && |chunk| <= RECV_SIZE && budget >= 1
    requires FrameRead([Chunk(chunk)], first, mid, budget)
    ensures first == [Chunk(chunk)] && mid == []
  {
    var script := [Chunk(chunk)];
    assert Receive(script, RECV_SIZE, 0) == ([], script);
    assert script[1..] == [];
    assert Deliver(script, RECV_SIZE) == (Chunk(chunk), []);
    assert [] + script == script;
    assert Receive(script, RECV_SIZE, 1) == (script, []);
    assert Data(script) == chunk;
    assert [] + Data(script) == chunk;
    assert [] + Data(script[..0]) == [];
    assert ReadUntil([], script, budget, TERM);
    ReceivePrefix(script, RECV_SIZE, 1, |first|);
    ReadUntilStopsOnce([], script, first, budget, TERM);
  }

  /** A read against an empty queue times out on every attempt and finds no frame. */
  lemma NothingQueuedRead(events: seq<Event>, after: seq<Event>, budget: nat)
    requires FrameRead([], events, after, budget)
    ensures |events| == budget && Data(events) == [] && after == [] && Reply(events) == None
  {
    ReceiveNothing(RECV_SIZE, |events|);
    DataOfTimeouts(events);
    assert [] + Data(events) == [];
  }

  /**
   * Both frames of a command in one chunk: the first frame is returned, the acknowledgement
   * behind it is thrown away with the remainder, and the drain then waits out its whole deadline.
   */
  lemma CoalescedAckIsLost(c: Bytes, ack: Bytes, first: seq<Event>, mid: seq<Event>,
                           drained: seq<Event>, after: seq<Event>, budget: nat)
    requires !Contains(c, TERM) && |c| + |ack| + 2 * |TERM| <= RECV_SIZE && budget >= 1
    requires FrameRead([Chunk(c + TERM + ack + TERM)], first, mid, budget)
    requires FrameRead(mid, drained, after, DRAIN_TIMEOUT)
    ensures first == [Chunk(c + TERM + ack + TERM)] && Reply(first) == Some(c) && mid == []
    ensures |drained| == DRAIN_TIMEOUT && Reply(drained) == None && after == []
  {
    var chunk := c + TERM + ack + TERM;
    CoalescedFrame(c, ack);
    OneChunkReply(chunk, c, first, mid, budget);
    NothingQueuedRead(drained, after, DRAIN_TIMEOUT);
  }

  /** The command's frame is the first frame of the coalesced chunk. */
  lemma CoalescedFrame(c: Bytes, ack: Bytes)
    requires !Contains(c, TERM)
    ensures Contains(c + TERM + ack + TERM, TERM) && FirstFrame(c + TERM + ack + TERM).0 == Some(c)
  {
    var chunk := c + TERM + ack + TERM;
    assert chunk == c + TERM + (ack + TERM);
    FrameRoundTrip(c, ack + TERM);
    FirstFrameSplits(chunk);
  }

  /** A single queued chunk holding a frame is read whole, and its first frame is the reply. */
  lemma OneChunkReply(chunk: Bytes, c: Bytes, first: seq<Event>, mid: seq<Event>, budget: nat)
    requires Contains(chunk, TERM) && FirstFrame(chunk).0 == Some(c) && |chunk| <= RECV_SIZE && budget >= 1
    requires FrameRead([Chunk(chunk)], first, mid, budget)
    ensures first == [Chunk(chunk)] && Reply(first) == Some(c) && mid == []
  {
    OneChunkFrameRead(chunk, first, mid, budget);
    DataOne(Chunk(chunk));
  }

  /** The receives of a command's two reads: its frame with `budget`, then the drain. */
  ghost predicate Command(before: seq<Event>, first: seq<Event>, drained: seq<Event>, after: seq<Event>, budget: nat)
  {
    var mid := Receive(before, RECV_SIZE, |first|).1;
    FrameRead(before, first, mid, budget) && FrameRead(mid, drained, after, DRAIN_TIMEOUT)
  }

  /** The conversation `before` followed by that of `send_cmd(cmd)`: the command line, then the receives of both reads. */
  function CommandTrace(before: seq<Io>, cmd: string, first: seq<Event>, drained: seq<Event>): seq<Io>
  {
    before + [Out(Encode(cmd + "\n"))] + Ins(first) + Ins(drained)
  }

  /** The single command line of `exec_str(code)`: reset `g_str`, run the code, send `g_str`. */
  function StrCommand(code: string): string
  {
    "GStrReset();" + code + "SerSendStr();"
  }

  /** `s` was connected by the caller before the call and stays the same socket. */
  class Temple {
    var s: Socket?
    const defaultTimeout: nat

    constructor (timeout: nat := DEFAULT_TIMEOUT)
      ensures s == null && defaultTimeout == timeout
    {
      s := null;
      defaultTimeout := timeout;
    }

    /** `connect`, with the socket to the guest's serial port already opened by the caller. */
    method Connect(sock: Socket)
      modifies this
      ensures s == sock
    {
      s := sock;
    }

    method Close()
      modifies this
      ensures s == null
    {
      s := null;
    }

    /** `_recv_until_term`: receives until the buffer holds a terminator or the deadline passes. */
    method RecvUntilTerm(budget: nat) returns (content: Option<Bytes>, rest: Bytes, ghost events: seq<Event>)
      requires s != null
      modifies s
      ensures FrameRead(old(s.script), events, s.script, budget)
      ensures s.trace == old(s.trace) + Ins(events)
      ensures (content, rest) == FirstFrame(Data(events))
    {
      var buf: Bytes := [];
      var attempts := 0;
      events := [];
      ghost var script0, trace0 := s.script, s.trace;
      ReadingStart([], budget, TERM);
      while attempts < budget
        invariant attempts == |events|
        invariant (events, s.script) == Receive(script0, RECV_SIZE, |events|)
        invariant s.trace == trace0 + Ins(events)
        invariant Reading([], events, budget, TERM, buf) && !Contains(buf, TERM)
        decreases budget - attempts
      {
        var ev;
        buf, ev, events := RecvAppend(s, RECV_SIZE, buf, [], events, budget, TERM, script0, trace0);
        attempts := attempts + 1;
        if ev.Chunk? && ev.data != [] && Contains(buf, TERM) {
          var idx := IndexOf(buf, TERM).value;
          content, rest := Some(buf[..idx]), buf[idx + |TERM|..];
          FrameStops(script0, events, s.script, budget, buf);
          return;
        }
      }
      content, rest := None, [];
      FrameStops(script0, events, s.script, budget, buf);
    }

    /** `_drain`: one more read, whose frame is discarded. */
    method Drain(budget: nat) returns (ghost events: seq<Event>)
      requires s != null
      modifies s
      ensures FrameRead(old(s.script), events, s.script, budget)
      ensures s.trace == old(s.trace) + Ins(events)
    {
      var _, _, evs := RecvUntilTerm(budget);
      events := evs;
    }

    /** `send_cmd`: the command line, then the first frame; what followed its terminator is dropped and the drain starts afresh. */
    method SendCmd(cmd: string, budget: nat) returns (content: Option<Bytes>, ghost first: seq<Event>, ghost drained: seq<Event>)
      requires s != null
      modifies s
      ensures Command(old(s.script), first, drained, s.script, budget)
      ensures s.trace == CommandTrace(old(s.trace), cmd, first, drained)
      ensures content == Reply(first)
    {
      s.SendAll(Encode(cmd + "\n"));
      var rest;
      content, rest, first := RecvUntilTerm(budget);
      drained := Drain(DRAIN_TIMEOUT);
    }

    /**
     * `is_frozen(timeout)`: a no-op line answered by a frame within the deadline means the REPL
     * is running; only then is the acknowledgement drained. A client without a socket raises
     * on `sendall`, which the handler turns into False.
     */
    method IsFrozen(budget: nat := PROBE_TIMEOUT) returns (frozen: bool, ghost first: seq<Event>, ghost drained: seq<Event>)
      modifies s
      ensures s == null ==> !frozen && first == [] && drained == []
      ensures s != null ==>
        var mid := Receive(old(s.script), RECV_SIZE, |first|).1;
        FrameRead(old(s.script), first, mid, budget)
        && (frozen ==> FrameRead(mid, drained, s.script, PROBE_DRAIN_TIMEOUT))
        && (!frozen ==> drained == [] && s.script == mid)
      ensures s != null ==> (frozen <==> Contains(Data(first), TERM))
      ensures s != null ==> s.trace == old(s.trace) + [Out([0x3B, 0x0A])] + Ins(first) + Ins(drained)
    {
      if s == null {
        return false, [], [];
      }
      s.SendAll([0x3B, 0x0A]);
      var content, rest;
      content, rest, first := RecvUntilTerm(budget);
      FirstFrameSplits(Data(first));
      if content.None? {
        return false, first, [];
      }
      drained := Drain(PROBE_DRAIN_TIMEOUT);
      frozen := true;
    }

    /** `exec`: any line of guest code. */
    method Exec(code: string) returns (content: Option<Bytes>, ghost first: seq<Event>, ghost drained: seq<Event>)
      requires s != null
      modifies s
      ensures Command(old(s.script), first, drained, s.script, defaultTimeout)
      ensures s.trace == CommandTrace(old(s.trace), code, first, drained)
      ensures content == Reply(first)
    {
      content, first, drained := SendCmd(code, defaultTimeout);
    }

    /** `list_dir`: the `C:/` entries of a `SerDir` listing. */
    method ListDir(pattern: string) returns (entries: seq<string>, ghost first: seq<Event>, ghost drained: seq<Event>)
      requires s != null
      modifies s
      ensures Command(old(s.script), first, drained, s.script, defaultTimeout)
      ensures s.trace == CommandTrace(old(s.trace), "SerDir(\"" + pattern + "\");", first, drained)
      ensures entries == KeptEntries(DirLines(Reply(first)))
    {
      var raw;
      raw, first, drained := SendCmd("SerDir(\"" + pattern + "\");", defaultTimeout);
      entries := ParseDirListing(raw);
    }

    /** `read_file`: a banned path is refused before anything is sent. */
    method ReadFile(path: string, budget: nat := READ_TIMEOUT)
      returns (r: Result<Option<Bytes>, Fault>, ghost first: seq<Event>, ghost drained: seq<Event>)
      requires s != null
      modifies s
      ensures path in BANNED_FILES ==>
        r == Failure(ValueError("File is banned from transfer: " + path)) && s.trace == old(s.trace) && s.script == old(s.script)
      ensures path !in BANNED_FILES ==>
        Command(old(s.script), first, drained, s.script, budget)
        && s.trace == CommandTrace(old(s.trace), "SerFileRead(\"" + path + "\");", first, drained)
        && r == Success(Reply(first))
    {
      if path in BANNED_FILES {
        return Failure(ValueError("File is banned from transfer: " + path)), [], [];
      }
      var raw;
      raw, first, drained := SendCmd("SerFileRead(\"" + path + "\");", budget);
      r := Success(raw);
    }

    /** The wait of `write_file` for the guest's ready byte: receives until a `\x04` arrives or the deadline passes. */
    method WaitReady() returns (ghost waited: seq<Event>)
      requires s != null
      modifies s
      ensures (waited, s.script) == Receive(old(s.script), READY_RECV, |waited|)
      ensures ReadUntil([], waited, WRITE_TIMEOUT, [EOT])
      ensures s.trace == old(s.trace) + Ins(waited)
    {
      var buf: Bytes := [];
      var attempts := 0;
      waited := [];
      ghost var script0, trace0 := s.script, s.trace;
      ReadingStart([], WRITE_TIMEOUT, [EOT]);
      while attempts < WRITE_TIMEOUT
        invariant attempts == |waited|
        invariant (waited, s.script) == Receive(script0, READY_RECV, |waited|)
        invariant s.trace == trace0 + Ins(waited)
        invariant Reading([], waited, WRITE_TIMEOUT, [EOT], buf) && !Contains(buf, [EOT])
        decreases WRITE_TIMEOUT - attempts
      {
        var ev;
        buf, ev, waited := RecvAppend(s, READY_RECV, buf, [], waited, WRITE_TIMEOUT, [EOT], script0, trace0);
        attempts := attempts + 1;
        if ev.Chunk? && ev.data != [] && Contains(buf, [EOT]) {
          ReadingStops([], waited, WRITE_TIMEOUT, [EOT], buf);
          return;
        }
      }
      ReadingStops([], waited, WRITE_TIMEOUT, [EOT], buf);
    }

    /**
     * `write_file`: the command line; the wait for the ready byte, going on whether or not it
     * came; the content and one `\x04`; then the two frames of the reply.
     */
    method WriteFile(path: string, content: Bytes)
      returns (ghost waited: seq<Event>, ghost frame: seq<Event>, ghost drained: seq<Event>)
      requires s != null
      modifies s
      ensures var afterWait := Receive(old(s.script), READY_RECV, |waited|);
        var afterFrame := Receive(afterWait.1, RECV_SIZE, |frame|).1;
        && waited == afterWait.0 && ReadUntil([], waited, WRITE_TIMEOUT, [EOT])
        && FrameRead(afterWait.1, frame, afterFrame, WRITE_TIMEOUT)
        && FrameRead(afterFrame, drained, s.script, DRAIN_TIMEOUT)
      ensures s.trace == old(s.trace) + [Out(Encode("SerFileWrite(\"" + path + "\");\n"))] + Ins(waited)
        + [Out(content + [EOT])] + Ins(frame) + Ins(drained)
    {
      s.SendAll(Encode("SerFileWrite(\"" + path + "\");\n"));
      waited := WaitReady();
      s.SendAll(content + [EOT]);
      var c, r, evs := RecvUntilTerm(WRITE_TIMEOUT);
      frame := evs;
      drained := Drain(DRAIN_TIMEOUT);
    }

    /** `file_exists` */
    method FileExists(path: string) returns (exists_: bool, ghost first: seq<Event>, ghost drained: seq<Event>)
      requires s != null
      modifies s
      ensures Command(old(s.script), first, drained, s.script, defaultTimeout)
      ensures s.trace == CommandTrace(old(s.trace), "SerFileExists(\"" + path + "\");", first, drained)
      ensures exists_ == FileExistsReply(Reply(first))
    {
      var raw;
      raw, first, drained := SendCmd("SerFileExists(\"" + path + "\");", defaultTimeout);
      exists_ := raw.Some? && BytesStrip(raw.value) == ONE;
    }

    /** `exec_i64`: stores the expression in `g_r`, then asks for `g_r`. */
    method ExecI64(expr: string)
      returns (r: Result<Option<int>, Fault>, ghost first: seq<Event>, ghost drained: seq<Event>,
               ghost between: seq<Event>, ghost read: seq<Event>, ghost drainedRead: seq<Event>)
      requires s != null
      modifies s
      ensures Command(old(s.script), first, drained, between, defaultTimeout)
      ensures Command(between, read, drainedRead, s.script, defaultTimeout)
      ensures s.trace == CommandTrace(CommandTrace(old(s.trace), "g_r=" + expr + ";", first, drained),
        "SerGetI64(g_r);", read, drainedRead)
      ensures r == ExecI64Reply(Reply(read))
    {
      var ack;
      ack, first, drained := Exec("g_r=" + expr + ";");
      between := s.script;
      var raw;
      raw, read, drainedRead := SendCmd("SerGetI64(g_r);", defaultTimeout);
      if raw.None? {
        return Success(None), first, drained, between, read, drainedRead;
      }
      if EXCEPT_TAG <= raw.value {
        return Failure(TempleException(StrStrip(Decode(raw.value[7..])))), first, drained, between, read, drainedRead;
      }
      var text := StrStrip(Decode(raw.value));
      if text == "" {
        r := Success(None);
      } else {
        match ParseInt(text, 10)
        case Some(n) => r := Success(Some(n));
        case None => r := Failure(ValueError(text));
      }
    }

    /** `exec_str`: resets `g_str`, runs the code and sends `g_str`, all in one command line. */
    method ExecStr(code: string) returns (r: Result<string, Fault>, ghost first: seq<Event>, ghost drained: seq<Event>)
      requires s != null
      modifies s
      ensures Command(old(s.script), first, drained, s.script, defaultTimeout)
      ensures s.trace == CommandTrace(old(s.trace), StrCommand(code), first, drained)
      ensures r == ExecStrReply(Reply(first))
    {
      var raw;
      raw, first, drained := SendCmd(StrCommand(code), defaultTimeout);
      r := ExecStrReply(raw);
    }

    /** `symbol_exists` */
    method SymbolExists(name: string) returns (r: Result<bool, Fault>, ghost first: seq<Event>, ghost drained: seq<Event>)
      requires s != null
      modifies s
      ensures Command(old(s.script), first, drained, s.script, defaultTimeout)
      ensures s.trace == CommandTrace(old(s.trace), StrCommand("SerSymExists(\"" + name + "\");"), first, drained)
      ensures r == SymbolExistsReply(ExecStrReply(Reply(first)))
    {
      var text;
      text, first, drained := ExecStr("SerSymExists(\"" + name + "\");");
      r := match text case Success(t) => Success(t == "1") case Failure(e) => Failure(e);
    }

    /** `list_symbols` */
    method ListSymbols(kind: string := "functions", detailed: bool := false) returns (r: SymbolList, ghost first: seq<Event>, ghost drained: seq<Event>)
      requires s != null
      modifies s
      ensures Command(old(s.script), first, drained, s.script, defaultTimeout)
      ensures s.trace == CommandTrace(old(s.trace), "SerSymList(" + Show(SymbolMask(kind), 10) + ");", first, drained)
      ensures r == ListSymbolsReply(Reply(first), detailed)
    {
      var raw;
      raw, first, drained := SendCmd("SerSymList(" + Show(SymbolMask(kind), 10) + ");", defaultTimeout);
      r := ListSymbolsReply(raw, detailed);
    }

    /** `exec_rows`: the text of `exec_str` as tab-separated rows. */
    method ExecRows(code: string) returns (r: Result<seq<seq<string>>, Fault>, ghost first: seq<Event>, ghost drained: seq<Event>)
      requires s != null
      modifies s
      ensures Command(old(s.script), first, drained, s.script, defaultTimeout)
      ensures s.trace == CommandTrace(old(s.trace), StrCommand(code), first, drained)
      ensures ExecStrReply(Reply(first)).Success? ==> r == Success(Rows(ExecStrReply(Reply(first)).value))
      ensures ExecStrReply(Reply(first)).Failure? ==> r == Failure(ExecStrReply(Reply(first)).error)
    {
      var text;
      text, first, drained := ExecStr(code);
      r := match text case Success(t) => Success(Rows(t)) case Failure(e) => Failure(e);
    }

    /** `exec_kv`: the rows of `exec_rows` as a dictionary, later keys winning. */
    method ExecKv(code: string) returns (r: Result<map<string, string>, Fault>, ghost first: seq<Event>, ghost drained: seq<Event>)
      requires s != null
      modifies s
      ensures Command(old(s.script), first, drained, s.script, defaultTimeout)
      ensures s.trace == CommandTrace(old(s.trace), StrCommand(code), first, drained)
      ensures ExecStrReply(Reply(first)).Success? ==> r == Success(KeyValues(Rows(ExecStrReply(Reply(first)).value)))
      ensures ExecStrReply(Reply(first)).Failure? ==> r == Failure(ExecStrReply(Reply(first)).error)
    {
      var rows;
      rows, first, drained := ExecRows(code);
      r := match rows case Success(rs) => Success(KeyValues(rs)) case Failure(e) => Failure(e);
    }
  }
}
