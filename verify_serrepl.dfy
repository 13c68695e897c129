/**
 * The serial REPL check: the host waits for `REPL_READY`, then sends one line of guest code
 * per test and reads exactly one EOT-framed response for it. Bytes that arrive after a
 * response are kept as the leftover the next read starts from.
 */
module SerReplTest {
  import opened Wrappers
  import opened Seqs
  import opened Bytes
  import opened Utf8
  import opened Sockets
  import opened EotFrames

  /** Every `recv` asks for at most 256 bytes. */
  const RECV_SIZE: nat := 256
  /** `b'REPL_READY'` */
  const REPL_READY: Bytes := [0x52, 0x45, 0x50, 0x4C, 0x5F, 0x52, 0x45, 0x41, 0x44, 0x59]
  /** `RESPONSE_TIMEOUT` of 60 s: 60 receives, each allowed a 1 s timeout. */
  const RESPONSE_TIMEOUT: nat := 60
  /** `READY_TIMEOUT` of 900 s: 900 receives, each allowed a 1 s timeout. */
  const READY_TIMEOUT: nat := 900
  /** `b'\n'` */
  const NEWLINE: byte := 0x0A

  /**
   * `read_eot`: looks at the buffer before every receive and stops at its first EOT; when the
   * budget is spent it gives up with None and keeps everything read as the leftover.
   */
  method ReadEot(s: Socket, leftover: Bytes, budget: nat) returns (resp: Option<Bytes>, rest: Bytes, ghost events: seq<Event>)
    modifies s
    ensures (events, s.script) == Receive(old(s.script), RECV_SIZE, |events|)
    ensures ReadUntil(leftover, events, budget, [EOT])
    ensures s.trace == old(s.trace) + Ins(events)
    ensures (resp, rest) == SplitAtEot(leftover + Data(events))
  {
    var buf := leftover;
    var attempts := 0;
    events := [];
    ReadingStart(leftover, budget, [EOT]);
    while true
      invariant attempts == |events|
      invariant (events, s.script) == Receive(old(s.script), RECV_SIZE, |events|)
      invariant s.trace == old(s.trace) + Ins(events)
      invariant Reading(leftover, events, budget, [EOT], buf)
      decreases budget - attempts
    {
      var eotPos := IndexOf(buf, [EOT]);
      if eotPos.Some? {
        resp, rest := Some(buf[..eotPos.value]), buf[eotPos.value + 1..];
        assert (resp, rest) == SplitAtEot(buf);
        ReadingStops(leftover, events, budget, [EOT], buf);
        return;
      }
      if attempts >= budget {
        resp, rest := None, buf;
        assert (resp, rest) == SplitAtEot(buf);
        ReadingStops(leftover, events, budget, [EOT], buf);
        return;
      }
      var ev;
      buf, ev, events := RecvAppend(s, RECV_SIZE, buf, leftover, events, budget, [EOT], old(s.script), old(s.trace));
      attempts := attempts + 1;
    }
  }

  /** A response already in the leftover is returned without a single receive, and the leftover's tail is kept. */
  lemma ReadEotBuffered(leftover: Bytes, events: seq<Event>, budget: nat)
    requires ReadUntil(leftover, events, budget, [EOT])
    requires EOT in leftover
    ensures events == []
    ensures SplitAtEot(leftover + Data(events)) == SplitAtEot(leftover)
  {
    ContainsSingle(leftover, EOT);
    ReadUntilBuffered(leftover, events, budget, [EOT]);
    assert leftover + Data(events) == leftover;
  }

  /**
   * The wait for `REPL_READY`: receives until the buffer holds the marker or the budget is spent;
   * on success the leftover is what came after the first marker.
   */
  method WaitReplReady(s: Socket, budget: nat) returns (ready: bool, leftover: Bytes, ghost events: seq<Event>)
    modifies s
    ensures (events, s.script) == Receive(old(s.script), RECV_SIZE, |events|)
    ensures ReadUntil([], events, budget, REPL_READY)
    ensures s.trace == old(s.trace) + Ins(events)
    ensures ready <==> Contains(Data(events), REPL_READY)
    ensures ready ==> AfterFirst(Data(events), REPL_READY) == Some(leftover)
  {
    var buf: Bytes := [];
    var attempts := 0;
    events := [];
    ReadingStart([], budget, REPL_READY);
    while attempts < budget
      invariant attempts == |events|
      invariant (events, s.script) == Receive(old(s.script), RECV_SIZE, |events|)
      invariant s.trace == old(s.trace) + Ins(events)
      invariant Reading([], events, budget, REPL_READY, buf) && !Contains(buf, REPL_READY)
      decreases budget - attempts
    {
      var ev;
      buf, ev, events := RecvAppend(s, RECV_SIZE, buf, [], events, budget, REPL_READY, old(s.script), old(s.trace));
      attempts := attempts + 1;
      if ev.Chunk? && ev.data != [] && Contains(buf, REPL_READY) {
        var at := IndexOf(buf, REPL_READY).value;
        leftover := buf[at + |REPL_READY|..];
        ready := true;
        ReadyFound(events, budget, buf, leftover);
        return;
      }
    }
    ready, leftover := false, buf;
    ReadyTimedOut(events, budget, buf);
  }

  /** The wait stops at the first chunk that completes `REPL_READY`; the leftover is what follows the marker. */
  lemma ReadyFound(events: seq<Event>, budget: nat, buf: Bytes, leftover: Bytes)
    requires Reading([], events, budget, REPL_READY, buf)
    requires AfterFirst(buf, REPL_READY) == Some(leftover)
    ensures ReadUntil([], events, budget, REPL_READY)
    ensures Contains(Data(events), REPL_READY)
    ensures AfterFirst(Data(events), REPL_READY) == Some(leftover)
  {
    ReadingStops([], events, budget, REPL_READY, buf);
    assert buf == Data(events);
  }

  /** The wait gives up once the budget is spent without the marker. */
  lemma ReadyTimedOut(events: seq<Event>, budget: nat, buf: Bytes)
    requires Reading([], events, budget, REPL_READY, buf) && |events| == budget && !Contains(buf, REPL_READY)
    ensures ReadUntil([], events, budget, REPL_READY)
    ensures !Contains(Data(events), REPL_READY)
  {
    ReadingStops([], events, budget, REPL_READY, buf);
    assert buf == Data(events);
  }

  /** The responses `n` reads in a row would return from the leftover alone, and the leftover after them. */
  function TakeResponses(leftover: Bytes, n: nat): (r: (seq<Option<Bytes>>, Bytes))
    ensures |r.0| == n
  {
    if n == 0 then ([], leftover)
    else
      var first := SplitAtEot(leftover);
      var more := TakeResponses(first.1, n - 1);
      ([first.0] + more.0, more.1)
  }

  /**
   * Threading the leftover: when one frame per command has already arrived, the reads return
   * those responses in order, one each, and leave exactly the bytes after the last frame.
   */
  lemma {:induction false} ThreadedResponses(rs: seq<Bytes>, tail: Bytes)
    requires EotFree(rs)
    ensures |TakeResponses(Framed(rs) + tail, |rs|).0| == |rs|
    ensures forall i :: 0 <= i < |rs| ==> TakeResponses(Framed(rs) + tail, |rs|).0[i] == Some(rs[i])
    ensures TakeResponses(Framed(rs) + tail, |rs|).1 == tail
    decreases |rs|
  {
    if rs == [] {
      assert Framed(rs) + tail == tail;
    } else {
      var first, more := rs[0], rs[1..];
      assert rs == [first] + more;
      assert EotFree(more) by {
        forall i | 0 <= i < |more| ensures EOT !in more[i] { assert more[i] == rs[i + 1]; }
      }
      FramedSplits(first, more, tail);
      ThreadedResponses(more, tail);
      var sub := TakeResponses(Framed(more) + tail, |more|);
      var r := TakeResponses(Framed(rs) + tail, |rs|);
      assert r == ([Some(first)] + sub.0, sub.1);
      SomesCons(first, more, sub.0);
    }
  }

  /** The responses of the first frame and of the frames after it together are the responses of all the frames. */
  lemma SomesCons(first: Bytes, more: seq<Bytes>, got: seq<Option<Bytes>>)
    requires |got| == |more| && forall i :: 0 <= i < |more| ==> got[i] == Some(more[i])
    ensures forall i :: 0 <= i < |more| + 1 ==> ([Some(first)] + got)[i] == Some(([first] + more)[i])
  {
  }

  /** The test counters and the leftover that `test` keeps as module globals. */
  class Session {
    const s: Socket
    var leftover: Bytes
    var passes: nat
    var fails: nat

    constructor (s: Socket, leftover: Bytes)
      ensures this.s == s && this.leftover == leftover && passes == 0 && fails == 0
    {
      this.s := s;
      this.leftover := leftover;
      passes := 0;
      fails := 0;
    }

    /**
     * `test(label, cmd, expected)`: sends the command line, reads one response starting from the
     * leftover, keeps what followed it, and counts a pass exactly when the response is `expected`.
     */
    method Test(cmd: string, expected: Bytes, budget: nat) returns (ghost resp: Option<Bytes>, ghost events: seq<Event>)
      modifies this, s
      ensures (events, s.script) == Receive(old(s.script), RECV_SIZE, |events|)
      ensures ReadUntil(old(leftover), events, budget, [EOT])
      ensures s.trace == old(s.trace) + [Out(Encode(cmd) + [NEWLINE])] + Ins(events)
      ensures (resp, leftover) == SplitAtEot(old(leftover) + Data(events))
      ensures resp == Some(expected) ==> passes == old(passes) + 1 && fails == old(fails)
      ensures resp != Some(expected) ==> passes == old(passes) && fails == old(fails) + 1
      ensures passes + fails == old(passes) + old(fails) + 1
    {
      s.SendAll(Encode(cmd) + [NEWLINE]);
      var r, rest, evs := ReadEot(s, leftover, budget);
      resp, leftover, events := r, rest, evs;
      if r.None? {
        fails := fails + 1;
        return;
      }
      if r.value == expected {
        passes := passes + 1;
      } else {
        fails := fails + 1;
      }
    }
  }
}
