/**
 * The serial protocol check: a buffered reader over the guest's serial socket that waits for
 * a line containing `READY` and then collects EOT-framed responses, and the comparison of
 * the three transmit-side responses with what the guest is meant to send.
 */
module SerProtoTest {
  import opened Wrappers
  import opened Seqs
  import opened Text
  import opened Bytes
  import opened Sockets
  import opened EotFrames

  /** `_fill` asks for at most 256 bytes. */
  const RECV_SIZE: nat := 256
  /** `b'\n'` */
  const NEWLINE: byte := 0x0A
  /** `b'READY'` */
  const READY: Bytes := [0x52, 0x45, 0x41, 0x44, 0x59]
  /** `b'hello'`, `b'OK'`, `b'ERR:oops'`: the responses of `SerSend("hello")`, `SerSendOk()` and `SerSendErr("oops")`. */
  const TX_EXPECTED: seq<Bytes> := [[0x68, 0x65, 0x6C, 0x6C, 0x6F], [0x4F, 0x4B], [0x45, 0x52, 0x52, 0x3A, 0x6F, 0x6F, 0x70, 0x73]]

  /** The exceptions that end a run: `TimeoutError` and `ConnectionError`, with their messages. */
  datatype Error = TimeoutError(message: string) | ConnectionError(message: string)

  const SOCKET_CLOSED: string := "Socket closed"
  const READY_TIMED_OUT: string := "Timed out waiting for READY"

  /** The message of a `read_eot_responses` deadline: how many of the responses came. */
  function TimedOutAfter(received: nat, count: nat): string
  {
    "Timed out after " + Show(received, 10) + "/" + Show(count, 10) + " responses"
  }

  /** How `_fill` ends: the chunk was appended, the peer closed (`ConnectionError`), or `socket.timeout` escapes to the caller. */
  datatype Filled = Appended | Closed | RecvTimedOut

  function FillOutcome(ev: Event): Filled
  {
    match ev
    case Timeout => RecvTimedOut
    case Chunk(d) => if d == [] then Closed else Appended
  }

  /** A fill that did not append was a receive timeout or the peer closing, and nothing else. */
  lemma FillFailed(ev: Event)
    ensures FillOutcome(ev) == RecvTimedOut <==> ev == Timeout
    ensures FillOutcome(ev) == Closed <==> ev == Chunk([])
  {
  }

  // --- the READY scan ---------------------------------------------------------------

  /**
   * The inner loop of `wait_for_ready` over a buffer: complete lines are taken off the front
   * one by one until one contains `READY`; whether it was found, and the buffer left.
   */
  function ScanLines(buf: Bytes): (r: (bool, Bytes))
    ensures |r.1| <= |buf|
    decreases |buf|
  {
    match IndexOf(buf, [NEWLINE])
    case None => (false, buf)
    case Some(p) => if Contains(buf[..p], READY) then (true, buf[p + 1..]) else ScanLines(buf[p + 1..])
  }

  lemma SplitAtNewline(buf: Bytes)
    ensures IndexOf(buf, [NEWLINE]).None? ==> Split(buf, NEWLINE) == [buf]
    ensures IndexOf(buf, [NEWLINE]).Some? ==>
      var p := IndexOf(buf, [NEWLINE]).value;
      Split(buf, NEWLINE) == [buf[..p]] + Split(buf[p + 1..], NEWLINE)
  {
  }

  /** Some complete line (every part of the split but the last) holds READY. */
  predicate HasReadyLine(lines: seq<Bytes>)
  {
    exists i :: 0 <= i < |lines| - 1 && Contains(lines[i], READY)
  }

  /** Line `i` is the first complete line that holds READY. */
  predicate FirstReadyLine(lines: seq<Bytes>, i: nat)
  {
    i < |lines| - 1 && Contains(lines[i], READY) && forall j :: 0 <= j < i ==> !Contains(lines[j], READY)
  }

  /**
   * The scan in terms of the buffer's lines (its split at every newline, the last part being
   * the unfinished line): READY is found exactly when a complete line holds it; then everything
   * up to and including the first such line is consumed and the rest is kept whole; otherwise
   * only the unfinished line is left.
   */
  lemma ScanLinesSplit(buf: Bytes)
    ensures ScanLines(buf).0 <==> HasReadyLine(Split(buf, NEWLINE))
    ensures ScanLines(buf).0 ==> exists i: nat :: (FirstReadyLine(Split(buf, NEWLINE), i)
      && ScanLines(buf).1 == Join(Split(buf, NEWLINE)[i + 1..], NEWLINE))
    ensures !ScanLines(buf).0 ==> ScanLines(buf).1 == Split(buf, NEWLINE)[|Split(buf, NEWLINE)| - 1]
  {
    ScanMatchesLines(buf);
  }

  /** The verdict and the buffer left agree with the lines as the scan promises. */
  ghost predicate ScanMatches(lines: seq<Bytes>, found: bool, left: Bytes)
    requires |lines| >= 1
  {
    && (found <==> HasReadyLine(lines))
    && (found ==> exists i: nat :: FirstReadyLine(lines, i) && left == Join(lines[i + 1..], NEWLINE))
    && (!found ==> left == lines[|lines| - 1])
  }

  lemma {:induction false} ScanMatchesLines(buf: Bytes)
    ensures ScanMatches(Split(buf, NEWLINE), ScanLines(buf).0, ScanLines(buf).1)
    decreases |buf|
  {
    SplitAtNewline(buf);
    if IndexOf(buf, [NEWLINE]).Some? {
      var p := IndexOf(buf, [NEWLINE]).value;
      var line, tail := buf[..p], buf[p + 1..];
      var more := Split(tail, NEWLINE);
      assert Split(buf, NEWLINE) == [line] + more;
      if Contains(line, READY) {
        ScanHere(line, tail);
        assert ScanLines(buf) == (true, tail);
      } else {
        ScanMatchesLines(tail);
        var (found, left) := ScanLines(tail);
        ScanLater(line, more, found, left);
        assert ScanLines(buf) == (found, left);
      }
    } else {
      assert Split(buf, NEWLINE) == [buf];
      assert ScanLines(buf) == (false, buf);
      assert !HasReadyLine([buf]);
    }
  }

  /** A first line that holds READY is the one the scan stops at, and the rest of the buffer is kept whole. */
  lemma ScanHere(line: Bytes, tail: Bytes)
    requires Contains(line, READY)
    ensures ScanMatches([line] + Split(tail, NEWLINE), true, tail)
  {
    var more := Split(tail, NEWLINE);
    JoinSplit(tail, NEWLINE);
    ReadyHere(line, more);
  }

  /** A line without READY in front of the lines changes neither the verdict nor what is left. */
  lemma ScanLater(line: Bytes, more: seq<Bytes>, found: bool, left: Bytes)
    requires !Contains(line, READY) && |more| >= 1
    requires ScanMatches(more, found, left)
    ensures ScanMatches([line] + more, found, left)
  {
    ReadyLater(line, more);
    if found {
      var i: nat :| FirstReadyLine(more, i) && left == Join(more[i + 1..], NEWLINE);
      assert FirstReadyLine([line] + more, i + 1);
    }
  }

  lemma ReadyHere(line: Bytes, more: seq<Bytes>)
    requires Contains(line, READY) && |more| >= 1
    ensures HasReadyLine([line] + more) && FirstReadyLine([line] + more, 0)
    ensures ([line] + more)[1..] == more
  {
    assert ([line] + more)[0] == line;
  }

  lemma ReadyLater(line: Bytes, more: seq<Bytes>)
    requires !Contains(line, READY) && |more| >= 1
    ensures HasReadyLine([line] + more) <==> HasReadyLine(more)
    ensures forall i: nat :: FirstReadyLine(more, i) ==> FirstReadyLine([line] + more, i + 1) && ([line] + more)[i + 2..] == more[i + 1..]
    ensures ([line] + more)[|more|] == more[|more| - 1]
  {
    ReadyLaterHas(line, more);
    forall i: nat | FirstReadyLine(more, i)
      ensures FirstReadyLine([line] + more, i + 1) && ([line] + more)[i + 2..] == more[i + 1..]
    {
      ReadyLaterFirst(line, more, i);
    }
  }

  lemma ReadyLaterHas(line: Bytes, more: seq<Bytes>)
    requires !Contains(line, READY) && |more| >= 1
    ensures HasReadyLine([line] + more) <==> HasReadyLine(more)
  {
    var lines := [line] + more;
    if HasReadyLine(lines) {
      var i :| 0 <= i < |lines| - 1 && Contains(lines[i], READY);
      assert i > 0 && lines[i] == more[i - 1];
    }
    if HasReadyLine(more) {
      var i :| 0 <= i < |more| - 1 && Contains(more[i], READY);
      assert lines[i + 1] == more[i];
    }
  }

  lemma ReadyLaterFirst(line: Bytes, more: seq<Bytes>, i: nat)
    requires !Contains(line, READY) && FirstReadyLine(more, i)
    ensures FirstReadyLine([line] + more, i + 1) && ([line] + more)[i + 2..] == more[i + 1..]
  {
    var lines := [line] + more;
    assert lines[i + 1] == more[i];
    forall j | 0 <= j < i + 1
      ensures !Contains(lines[j], READY)
    {
      if j > 0 {
        assert lines[j] == more[j - 1];
      }
    }
  }

  // --- wait_for_ready as a run of receives ------------------------------------------

  /** Where `wait_for_ready` stands: still waiting with this buffer, READY seen with this buffer left, or raised. */
  datatype Wait = Waiting(buf: Bytes) | Ready(rest: Bytes) | Failed(error: Error)

  /** One round: a fill, then the scan of the grown buffer. */
  function WaitStep(buf: Bytes, ev: Event): Wait
  {
    match ev
    case Timeout => Failed(TimeoutError(READY_TIMED_OUT))
    case Chunk(d) =>
      if d == [] then Failed(ConnectionError(SOCKET_CLOSED))
      else
        var scan := ScanLines(buf + d);
        if scan.0 then Ready(scan.1) else Waiting(scan.1)
  }

  /** The rounds of `wait_for_ready` over the receives `events`, from a buffer `buf`; the first decisive round settles it. */
  function WaitAfter(buf: Bytes, events: seq<Event>): Wait
  {
    if events == [] then Waiting(buf)
    else
      match WaitAfter(buf, events[..|events| - 1])
      case Waiting(b) => WaitStep(b, events[|events| - 1])
      case settled => settled
  }

  lemma WaitAfterSnoc(buf: Bytes, events: seq<Event>, ev: Event)
    requires WaitAfter(buf, events).Waiting?
    ensures WaitAfter(buf, events + [ev]) == WaitStep(WaitAfter(buf, events).buf, ev)
  {
    assert (events + [ev])[..|events|] == events;
  }

  /** A round that times out or sees the peer close raises before any line is scanned. */
  lemma WaitStepFails(buf: Bytes, ev: Event)
    ensures WaitStep(buf, ev).Failed? <==> FillOutcome(ev) != Appended
    ensures ev == Timeout ==> WaitStep(buf, ev) == Failed(TimeoutError(READY_TIMED_OUT))
    ensures ev == Chunk([]) ==> WaitStep(buf, ev) == Failed(ConnectionError(SOCKET_CLOSED))
  {
  }

  /** A READY line that arrives in one chunk ends the wait; the bytes after its newline are what the reader keeps. */
  lemma ReadyInOneChunk(buf: Bytes, pre: Bytes, post: Bytes)
    requires NEWLINE !in buf && NEWLINE !in pre
    requires Contains(buf + pre, READY)
    ensures WaitStep(buf, Chunk(pre + [NEWLINE] + post)) == Ready(post)
  {
    var d := pre + [NEWLINE] + post;
    var all := buf + d;
    assert all == (buf + pre) + [NEWLINE] + post;
    assert all[..|buf + pre|] == buf + pre;
    IndexOfFirst(all, NEWLINE, |buf + pre|);
    assert all[|buf + pre| + 1..] == post;
  }

  // --- the reader ---------------------------------------------------------------------

  /** Why the loop of `read_eot_responses` ended: enough responses, the budget spent, a receive timeout, or the peer closed. */
  datatype Stop = Counted | Spent | RecvTimeout | PeerClosed

  /** `Reader`: the socket and the bytes received but not yet consumed. */
  class Reader {
    const s: Socket
    var buf: Bytes

    constructor (s: Socket)
      ensures this.s == s && buf == []
    {
      this.s := s;
      buf := [];
    }

    /** `_fill`: one receive; a chunk is appended, an empty one means the peer closed, and a timeout is passed on. */
    method Fill() returns (r: Filled, ghost ev: Event)
      modifies this, s
      ensures (ev, s.script) == Deliver(old(s.script), RECV_SIZE)
      ensures s.trace == old(s.trace) + [In(ev)]
      ensures r == FillOutcome(ev)
      ensures buf == old(buf) + Payload(ev)
    {
      var chunk := s.Recv(RECV_SIZE);
      ev := chunk;
      match chunk {
        case Timeout =>
          r := RecvTimedOut;
        case Chunk(d) =>
          if d == [] {
            r := Closed;
            assert buf + [] == buf;
          } else {
            buf := buf + d;
            r := Appended;
          }
      }
    }

    /** The inner `while b'\n' in self.buf` loop of `wait_for_ready`. */
    method ScanBuffered() returns (found: bool)
      modifies this
      ensures (found, buf) == ScanLines(old(buf))
    {
      found := false;
      while Contains(buf, [NEWLINE])
        invariant ScanLines(buf) == ScanLines(old(buf))
        decreases |buf|
      {
        var p := IndexOf(buf, [NEWLINE]).value;
        var line := buf[..p];
        buf := buf[p + 1..];
        if Contains(line, READY) {
          found := true;
          return;
        }
      }
    }

    /**
     * `wait_for_ready`: a fill, then the scan of every complete line, round after round until
     * a line holds READY; the budget or a receive timeout raises `TimeoutError`, a closed
     * peer `ConnectionError`.
     */
    method WaitForReady(budget: nat) returns (raised: Option<Error>, ghost events: seq<Event>)
      modifies this, s
      ensures (events, s.script) == Receive(old(s.script), RECV_SIZE, |events|)
      ensures s.trace == old(s.trace) + Ins(events)
      ensures |events| <= budget
      ensures events == [] || WaitAfter(old(buf), events[..|events| - 1]).Waiting?
      ensures match WaitAfter(old(buf), events)
        case Waiting(b) => |events| == budget && raised == Some(TimeoutError(READY_TIMED_OUT)) && buf == b
        case Ready(rest) => raised == None && buf == rest
        case Failed(e) => raised == Some(e)
    {
      var attempts := 0;
      events := [];
      ghost var script0, trace0, buf0 := s.script, s.trace, buf;
      while true
        invariant attempts == |events| <= budget
        invariant (events, s.script) == Receive(script0, RECV_SIZE, |events|)
        invariant s.trace == trace0 + Ins(events)
        invariant WaitAfter(buf0, events) == Waiting(buf)
        decreases budget - attempts
      {
        if attempts >= budget {
          return Some(TimeoutError(READY_TIMED_OUT)), events;
        }
        ghost var before, queued := events, s.script;
        var filled, ev := Fill();
        attempts := attempts + 1;
        events := events + [ev];
        ReceiveSnoc(script0, RECV_SIZE, before, queued, ev, s.script);
        InsSnoc(before, ev);
        WaitAfterSnoc(buf0, before, ev);
        if filled == RecvTimedOut {
          return Some(TimeoutError(READY_TIMED_OUT)), events;
        }
        if filled == Closed {
          return Some(ConnectionError(SOCKET_CLOSED)), events;
        }
        var found := ScanBuffered();
        if found {
          return None, events;
        }
      }
    }

    /**
     * `read_eot_responses(count)`: the buffer is searched for an EOT first, so buffered responses
     * are taken before any receive; bytes before an EOT gather in `current`, so a response may
     * span many chunks. Success gives exactly `count` EOT-free responses, framed in order at the
     * front of what was buffered and received, with the bytes after the last one still buffered.
     */
    method ReadEotResponses(count: nat, budget: nat) returns (r: Result<seq<Bytes>, Error>, ghost got: seq<Bytes>, ghost events: seq<Event>)
      modifies this, s
      ensures (events, s.script) == Receive(old(s.script), RECV_SIZE, |events|)
      ensures s.trace == old(s.trace) + Ins(events)
      ensures |events| <= budget && |got| <= count && EotFree(got)
      ensures Framed(got) <= old(buf) + Data(events)
      ensures r.Success? ==> r.value == got && |got| == count && old(buf) + Data(events) == Framed(got) + buf
      ensures r.Failure? ==> |got| < count
      ensures r.Failure? && r.error.TimeoutError? ==>
        r.error.message == TimedOutAfter(|got|, count)
        && (|events| == budget || (events != [] && events[|events| - 1] == Timeout))
      ensures r.Failure? ==> r.error.TimeoutError? || (r.error == ConnectionError(SOCKET_CLOSED) && events != [] && events[|events| - 1] == Chunk([]))
    {
      var stop, responses, current;
      stop, responses, current, events := CollectResponses(count, budget);
      got := responses;
      GatheredSettled(old(buf), events, responses, current, buf);
      match stop
      case Counted =>
        r := Success(responses);
      case Spent =>
        r := Failure(TimeoutError(TimedOutAfter(|responses|, count)));
      case RecvTimeout =>
        r := Failure(TimeoutError(TimedOutAfter(|responses|, count)));
      case PeerClosed =>
        r := Failure(ConnectionError(SOCKET_CLOSED));
    }

    /**
     * The loop of `read_eot_responses`: it takes buffered responses and receives until it has
     * `count` of them, the budget is spent, a receive times out or the peer closes.
     */
    method CollectResponses(count: nat, budget: nat) returns (stop: Stop, responses: seq<Bytes>, current: Bytes, ghost events: seq<Event>)
      modifies this, s
      ensures (events, s.script) == Receive(old(s.script), RECV_SIZE, |events|)
      ensures s.trace == old(s.trace) + Ins(events)
      ensures |events| <= budget && |responses| <= count
      ensures Gathered(old(buf), events, responses, current, buf)
      ensures stop == Counted <==> |responses| == count
      ensures stop == Counted ==> current == []
      ensures stop == Spent ==> |events| == budget
      ensures stop == RecvTimeout ==> events != [] && events[|events| - 1] == Timeout
      ensures stop == PeerClosed ==> events != [] && events[|events| - 1] == Chunk([])
    {
      responses, current := [], [];
      var attempts := 0;
      events := [];
      assert old(buf) + Data(events) == Framed(responses) + current + buf;
      while |responses| < count
        invariant attempts == |events| <= budget
        invariant (events, s.script) == Receive(old(s.script), RECV_SIZE, |events|)
        invariant s.trace == old(s.trace) + Ins(events)
        invariant |responses| <= count && (current == [] || |responses| < count)
        invariant Gathered(old(buf), events, responses, current, buf)
        decreases budget - attempts, count - |responses|
      {
        if attempts >= budget {
          return Spent, responses, current, events;
        }
        var response := TakeBuffered(current, old(buf), events, responses);
        if response.Some? {
          responses := responses + [response.value];
          current := [];
          continue;
        }
        var filled;
        current, filled, events := GatherAndFill(current, old(buf), events, responses, old(s.script), old(s.trace));
        attempts := attempts + 1;
        if filled == RecvTimedOut {
          return RecvTimeout, responses, current, events;
        }
        if filled == Closed {
          return PeerClosed, responses, current, events;
        }
      }
      stop := Counted;
    }

    /** The first half of `read_eot_responses`'s loop body: a response is cut off the buffer when it holds an EOT. */
    method TakeBuffered(current: Bytes, ghost start: Bytes, ghost events: seq<Event>, ghost responses: seq<Bytes>) returns (response: Option<Bytes>)
      requires Gathered(start, events, responses, current, buf)
      modifies this
      ensures response.None? <==> EOT !in old(buf)
      ensures response.None? ==> buf == old(buf)
      ensures response.Some? ==> Gathered(start, events, responses + [response.value], [], buf)
    {
      var eotPos := IndexOf(buf, [EOT]);
      IndexOfSingle(buf, EOT);
      if eotPos.None? {
        return None;
      }
      var p := eotPos.value;
      TakeStep(start, events, responses, current, buf, p);
      response := Some(current + buf[..p]);
      buf := buf[p + 1..];
    }

    /** The second half: the buffer, free of EOT, is moved into `current`, then `_fill`. */
    method GatherAndFill(current: Bytes, ghost start: Bytes, ghost events: seq<Event>, ghost responses: seq<Bytes>,
                         ghost script0: seq<Event>, ghost trace0: seq<Io>)
      returns (gathered: Bytes, filled: Filled, ghost after: seq<Event>)
      requires Gathered(start, events, responses, current, buf) && EOT !in buf
      requires (events, s.script) == Receive(script0, RECV_SIZE, |events|)
      requires s.trace == trace0 + Ins(events)
      modifies this, s
      ensures after != [] && after[..|after| - 1] == events && filled == FillOutcome(after[|after| - 1])
      ensures filled == RecvTimedOut ==> after[|after| - 1] == Timeout
      ensures filled == Closed ==> after[|after| - 1] == Chunk([])
      ensures (after, s.script) == Receive(script0, RECV_SIZE, |after|)
      ensures s.trace == trace0 + Ins(after)
      ensures gathered == current + old(buf)
      ensures Gathered(start, after, responses, gathered, buf)
    {
      FillStep(start, events, responses, current, buf);
      gathered := current + buf;
      buf := [];
      ghost var queued, trace := s.script, s.trace;
      ghost var ev;
      filled, ev := Fill();
      after := events + [ev];
      FillRecorded(script0, trace0, events, queued, ev, s.script, s.trace, start, responses, gathered, buf);
      FillFailed(ev);
    }
  }

  /**
   * The loop state of `read_eot_responses`: what was buffered at the start and then received is
   * the responses taken so far, each framed by its EOT, then the bytes gathered in `current`,
   * then the buffer; no response and nothing gathered holds an EOT.
   */
  ghost predicate Gathered(start: Bytes, events: seq<Event>, responses: seq<Bytes>, current: Bytes, buf: Bytes)
  {
    start + Data(events) == Framed(responses) + current + buf && EotFree(responses) && EOT !in current
  }

  /** Wherever the loop stops, the responses taken are EOT-free and framed at the front of everything read. */
  lemma GatheredSettled(start: Bytes, events: seq<Event>, responses: seq<Bytes>, current: Bytes, buf: Bytes)
    requires Gathered(start, events, responses, current, buf)
    ensures EotFree(responses) && Framed(responses) <= start + Data(events)
    ensures current == [] ==> start + Data(events) == Framed(responses) + buf
  {
    var all := start + Data(events);
    assert all[..|Framed(responses)|] == Framed(responses);
    if current == [] {
      assert Framed(responses) + current + buf == Framed(responses) + buf;
    }
  }

  /** Taking a response off the buffer: the bytes gathered so far and the buffer's part before its EOT become one framed response. */
  lemma TakeStep(start: Bytes, events: seq<Event>, responses: seq<Bytes>, current: Bytes, buf: Bytes, p: nat)
    requires Gathered(start, events, responses, current, buf)
    requires p < |buf| && buf[p] == EOT && EOT !in buf[..p]
    ensures Gathered(start, events, responses + [current + buf[..p]], [], buf[p + 1..])
  {
    FramedSnoc(responses, current + buf[..p]);
    assert buf == buf[..p] + [EOT] + buf[p + 1..];
    var rs := responses + [current + buf[..p]];
    assert Framed(rs) + [] + buf[p + 1..] == Framed(rs) + buf[p + 1..];
    assert EotFree(rs) by {
      assert forall i :: 0 <= i < |responses| ==> rs[i] == responses[i];
    }
  }

  /** A buffer without EOT is moved into `current` whole before the next receive. */
  lemma FillStep(start: Bytes, events: seq<Event>, responses: seq<Bytes>, current: Bytes, buf: Bytes)
    requires Gathered(start, events, responses, current, buf) && EOT !in buf
    ensures start + Data(events) == Framed(responses) + (current + buf) && EOT !in current + buf
  {
  }

  /** The bookkeeping of one fill: the receive extends the run of receives and the trace, and its bytes land behind everything gathered. */
  lemma FillRecorded(script0: seq<Event>, trace0: seq<Io>, events: seq<Event>, queued: seq<Event>, ev: Event,
                     rest: seq<Event>, trace: seq<Io>, start: Bytes, responses: seq<Bytes>, gathered: Bytes, buf: Bytes)
    requires (events, queued) == Receive(script0, RECV_SIZE, |events|) && (ev, rest) == Deliver(queued, RECV_SIZE)
    requires trace == trace0 + Ins(events) + [In(ev)]
    requires start + Data(events) == Framed(responses) + gathered && EotFree(responses) && EOT !in gathered
    requires buf == [] + Payload(ev)
    ensures (events + [ev])[..|events|] == events && (events + [ev])[|events|] == ev
    ensures (events + [ev], rest) == Receive(script0, RECV_SIZE, |events + [ev]|)
    ensures trace == trace0 + Ins(events + [ev])
    ensures Gathered(start, events + [ev], responses, gathered, buf)
  {
    ReceiveSnoc(script0, RECV_SIZE, events, queued, ev, rest);
    InsSnoc(events, ev);
    GatheredFill(start, events, ev, responses, gathered, buf);
  }

  /** What a receive returns lands in the (empty) buffer behind everything gathered. */
  lemma GatheredFill(start: Bytes, events: seq<Event>, ev: Event, responses: seq<Bytes>, current: Bytes, buf: Bytes)
    requires start + Data(events) == Framed(responses) + current && EotFree(responses) && EOT !in current
    requires buf == [] + Payload(ev)
    ensures Gathered(start, events + [ev], responses, current, buf)
  {
    DataSnoc(events, ev);
    assert buf == Payload(ev);
    AppendBehind(start, Data(events), Payload(ev), Framed(responses), current);
  }

  lemma AppendBehind(start: Bytes, d: Bytes, p: Bytes, f: Bytes, current: Bytes)
    requires start + d == f + current
    ensures start + (d + p) == f + current + p
  {
    assert start + (d + p) == (start + d) + p;
  }

  // --- the transmit-side check ----------------------------------------------------------

  /** The loop of `run_tx_tests` over `zip(responses, TX_EXPECTED)`. */
  method TxCheck(responses: seq<Bytes>) returns (passed: bool)
    ensures passed <==> forall i :: 0 <= i < |responses| && i < |TX_EXPECTED| ==> responses[i] == TX_EXPECTED[i]
  {
    passed := true;
    var n := if |responses| < |TX_EXPECTED| then |responses| else |TX_EXPECTED|;
    for i := 0 to n
      invariant passed <==> forall k :: 0 <= k < i ==> responses[k] == TX_EXPECTED[k]
    {
      var ok := responses[i] == TX_EXPECTED[i];
      if !ok {
        passed := false;
      }
    }
  }

  /** With exactly three responses, as `read_eot_responses(3)` returns, the check passes exactly when they are the expected ones. */
  lemma TxCheckExact(responses: seq<Bytes>)
    requires |responses| == |TX_EXPECTED|
    ensures (forall i :: 0 <= i < |responses| && i < |TX_EXPECTED| ==> responses[i] == TX_EXPECTED[i]) <==> responses == TX_EXPECTED
  {
  }

  /**
   * `run_tx_tests`: wait for READY, read three responses, compare; an exception is passed on.
   * `readyEvents` and `responseEvents` are the receives of the two phases, in order; the
   * responses compared are the EOT frames at the front of what the wait left buffered
   * followed by what the second phase received.
   */
  method RunTxTests(reader: Reader, readyBudget: nat, responseBudget: nat)
    returns (r: Result<bool, Error>, ghost got: seq<Bytes>, ghost readyEvents: seq<Event>, ghost responseEvents: seq<Event>)
    modifies reader, reader.s
    ensures var mid := Receive(old(reader.s.script), RECV_SIZE, |readyEvents|);
      mid.0 == readyEvents && (responseEvents, reader.s.script) == Receive(mid.1, RECV_SIZE, |responseEvents|)
    ensures reader.s.trace == old(reader.s.trace) + Ins(readyEvents) + Ins(responseEvents)
    ensures |readyEvents| <= readyBudget && |responseEvents| <= responseBudget
    ensures match WaitAfter(old(reader.buf), readyEvents)
      case Waiting(_) => |readyEvents| == readyBudget && r == Failure(TimeoutError(READY_TIMED_OUT)) && got == [] && responseEvents == []
      case Failed(e) => r == Failure(e) && got == [] && responseEvents == []
      case Ready(rest) =>
        EotFree(got) && |got| <= |TX_EXPECTED| && Framed(got) <= rest + Data(responseEvents)
        && (r.Success? ==>
              |got| == |TX_EXPECTED| && rest + Data(responseEvents) == Framed(got) + reader.buf && (r.value <==> got == TX_EXPECTED))
        && (r.Failure? ==>
              |got| < |TX_EXPECTED|
              && ((r.error == TimeoutError(TimedOutAfter(|got|, |TX_EXPECTED|))
                   && (|responseEvents| == responseBudget || (responseEvents != [] && responseEvents[|responseEvents| - 1] == Timeout)))
                  || (r.error == ConnectionError(SOCKET_CLOSED) && responseEvents != [] && responseEvents[|responseEvents| - 1] == Chunk([]))))
  {
    got, responseEvents := [], [];
    var raised;
    raised, readyEvents := reader.WaitForReady(readyBudget);
    if raised.Some? {
      return Failure(raised.value), got, readyEvents, responseEvents;
    }
    var responses;
    responses, got, responseEvents := reader.ReadEotResponses(|TX_EXPECTED|, responseBudget);
    if responses.Failure? {
      return Failure(responses.error), got, readyEvents, responseEvents;
    }
    var passed := TxCheck(responses.value);
    TxCheckExact(responses.value);
    r := Success(passed);
  }
}
