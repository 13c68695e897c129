/**
 * A stream socket as the client code sees it. The peer's side is a script of what each
 * `recv` call will produce; the socket records the whole conversation, sends and receives
 * in order, in `trace`. A deadline of the source becomes a budget of `recv` attempts.
 */
module Sockets {
  import opened Bytes
  import opened Seqs

  /** What one `recv` call produces: bytes (empty once the peer has closed) or `socket.timeout`. */
  datatype Event = Chunk(data: Bytes) | Timeout

  /** One step of the conversation: bytes handed to `sendall`, or the outcome of a `recv`. */
  datatype Io = Out(sent: Bytes) | In(event: Event)

  function Payload(e: Event): Bytes
  {
    if e.Chunk? then e.data else []
  }

  /** All bytes delivered by a run of `recv` calls, in order. */
  function Data(es: seq<Event>): Bytes
  {
    if es == [] then [] else Data(es[..|es| - 1]) + Payload(es[|es| - 1])
  }

  /** The bytes of a single event are its payload. */
  lemma DataOne(e: Event)
    ensures Data([e]) == Payload(e)
  {
    assert [e][..0] == [];
  }

  /** The bytes of two events, and of the first alone. */
  lemma DataTwo(x: Event, y: Event)
    ensures Data([x, y]) == Payload(x) + Payload(y)
    ensures Data([x, y][..1]) == Payload(x)
  {
    assert [x, y][..1] == [x];
    DataOne(x);
  }

  lemma {:induction false} DataAppend(a: seq<Event>, b: seq<Event>)
    ensures Data(a + b) == Data(a) + Data(b)
    decreases |b|
  {
    if b == [] {
      assert a + b == a;
    } else {
      var init, last := b[..|b| - 1], b[|b| - 1];
      assert b == init + [last];
      assert a + b == (a + init) + [last];
      DataAppend(a, init);
      DataSnoc(a + init, last);
      DataSnoc(init, last);
      AppendAssoc(Data(a), Data(init), Payload(last));
    }
  }

  lemma DataSnoc(a: seq<Event>, e: Event)
    ensures Data(a + [e]) == Data(a) + Payload(e)
  {
    assert (a + [e])[..|a|] == a;
  }

  /** The conversation steps of a run of receives. */
  function Ins(es: seq<Event>): (r: seq<Io>)
    ensures |r| == |es| && forall i :: 0 <= i < |es| ==> r[i] == In(es[i])
  {
    if es == [] then [] else Ins(es[..|es| - 1]) + [In(es[|es| - 1])]
  }

  /** The same, behind bytes `init` that were there before the receives. */
  lemma DataSnocFrom(init: Bytes, a: seq<Event>, e: Event)
    ensures init + Data(a + [e]) == (init + Data(a)) + Payload(e)
  {
    DataSnoc(a, e);
  }

  lemma InsSnoc(a: seq<Event>, e: Event)
    ensures Ins(a + [e]) == Ins(a) + [In(e)]
  {
    assert (a + [e])[..|a|] == a;
  }

  /** One `recv(max)` against what the peer has queued: at most `max` bytes, the rest stays queued. */
  function Deliver(script: seq<Event>, max: nat): (r: (Event, seq<Event>))
    requires max > 0
    ensures r.0.Chunk? ==> |r.0.data| <= max
  {
    if script == [] then (Timeout, [])
    else if script[0].Chunk? && |script[0].data| > max then
      (Chunk(script[0].data[..max]), [Chunk(script[0].data[max..])] + script[1..])
    else (script[0], script[1..])
  }

  /** Data before the rest, from the front. */
  lemma {:induction false} DataCons(e: Event, es: seq<Event>)
    ensures Data([e] + es) == Payload(e) + Data(es)
    decreases |es|
  {
    if es == [] {
      assert [e] + es == [e];
      DataOne(e);
    } else {
      var init, last := es[..|es| - 1], es[|es| - 1];
      assert es == init + [last];
      assert [e] + es == ([e] + init) + [last];
      DataCons(e, init);
      DataSnoc([e] + init, last);
      DataSnoc(init, last);
      AppendAssoc(Payload(e), Data(init), Payload(last));
    }
  }

  /** A receive neither loses, duplicates nor reorders bytes: what it returns, then what is still queued, is what was queued. */
  lemma DeliverKeepsStream(script: seq<Event>, max: nat)
    requires max > 0
    ensures Payload(Deliver(script, max).0) + Data(Deliver(script, max).1) == Data(script)
  {
    if script != [] {
      var h, t := script[0], script[1..];
      assert script == [h] + t;
      DataCons(h, t);
      if h.Chunk? && |h.data| > max {
        var d := h.data;
        assert Deliver(script, max) == (Chunk(d[..max]), [Chunk(d[max..])] + t);
        DataCons(Chunk(d[max..]), t);
        assert d[..max] + d[max..] == d;
        AppendAssoc(d[..max], d[max..], Data(t));
      } else {
        assert Deliver(script, max) == (h, t);
      }
    }
  }

  /** `n` consecutive `recv(max)` calls: what they return, and what the peer still has queued afterwards. */
  function Receive(script: seq<Event>, max: nat, n: nat): (r: (seq<Event>, seq<Event>))
    requires max > 0
    ensures |r.0| == n
  {
    if n == 0 then ([], script)
    else
      var before := Receive(script, max, n - 1);
      var step := Deliver(before.1, max);
      (before.0 + [step.0], step.1)
  }

  /** One more receive extends the run of receives by the event delivered from what was still queued. */
  lemma ReceiveSnoc(script: seq<Event>, max: nat, events: seq<Event>, queued: seq<Event>, ev: Event, rest: seq<Event>)
    requires max > 0
    requires (events, queued) == Receive(script, max, |events|) && (ev, rest) == Deliver(queued, max)
    ensures (events + [ev], rest) == Receive(script, max, |events| + 1)
    ensures |events + [ev]| == |events| + 1 && (events + [ev])[..|events|] == events
  {
    DropAppended(events, ev);
  }

  /** Two queued chunks that each fit one receive are delivered by two receives, one each. */
  lemma ReceiveTwo(x: Event, y: Event, max: nat)
    requires max > 0 && x.Chunk? && |x.data| <= max && y.Chunk? && |y.data| <= max
    ensures Receive([x, y], max, 1) == ([x], [y])
    ensures Receive([x, y], max, 2) == ([x, y], [])
  {
    assert Receive([x, y], max, 0) == ([], [x, y]);
    assert [x, y][1..] == [y];
    assert Deliver([x, y], max) == (x, [y]);
    assert [] + [x] == [x];
    assert [y][1..] == [];
    assert Deliver([y], max) == (y, []);
    assert [x] + [y] == [x, y];
  }

  /** However many receives run, the bytes they return followed by the bytes still queued are the peer's stream. */
  lemma {:induction false} ReceiveKeepsStream(script: seq<Event>, max: nat, n: nat)
    requires max > 0
    ensures Data(Receive(script, max, n).0) + Data(Receive(script, max, n).1) == Data(script)
  {
    if n > 0 {
      var before := Receive(script, max, n - 1);
      var step := Deliver(before.1, max);
      var a, e, q := before.0, step.0, step.1;
      assert Receive(script, max, n) == (a + [e], q);
      ReceiveKeepsStream(script, max, n - 1);
      assert Data(a) + Data(before.1) == Data(script);
      DeliverKeepsStream(before.1, max);
      assert Payload(e) + Data(q) == Data(before.1);
      DataSnoc(a, e);
      assert Data(a + [e]) + Data(q) == Data(a) + (Payload(e) + Data(q));
    }
  }

  /** Fewer receives return a prefix of what more receives return. */
  lemma {:induction false} ReceivePrefix(script: seq<Event>, max: nat, m: nat, n: nat)
    requires max > 0 && m <= n
    ensures Receive(script, max, n).0[..m] == Receive(script, max, m).0
    decreases n
  {
    if m < n {
      ReceivePrefix(script, max, m, n - 1);
      var before := Receive(script, max, n - 1);
      var e := Deliver(before.1, max).0;
      assert Receive(script, max, n).0 == before.0 + [e];
      assert (before.0 + [e])[..m] == before.0[..m];
    } else {
      assert Receive(script, max, n).0[..m] == Receive(script, max, n).0;
    }
  }

  class Socket {
    /** What the peer will deliver, one element per `recv` call; when it runs out every `recv` times out. */
    var script: seq<Event>
    /** The conversation so far, oldest first. */
    var trace: seq<Io>

    constructor (script: seq<Event>)
      ensures this.script == script && trace == []
    {
      this.script := script;
      trace := [];
    }

    /** `sock.recv(max)`. */
    method Recv(max: nat) returns (ev: Event)
      requires max > 0
      modifies this
      ensures (ev, script) == Deliver(old(script), max)
      ensures trace == old(trace) + [In(ev)]
    {
      var r := Deliver(script, max);
      ev, script := r.0, r.1;
      trace := trace + [In(ev)];
    }

    /** The receives `events`, of at most `max` bytes each, are all that happened since the queue was `script0` and the conversation `trace0`. */
    ghost predicate Since(script0: seq<Event>, trace0: seq<Io>, max: nat, events: seq<Event>)
      reads this
    {
      max > 0 && (events, script) == Receive(script0, max, |events|) && trace == trace0 + Ins(events)
    }

    /** One more `recv` of a loop that has already done the receives `events`. */
    method RecvMore(max: nat, ghost script0: seq<Event>, ghost trace0: seq<Io>, ghost events: seq<Event>)
      returns (ev: Event, ghost after: seq<Event>)
      requires Since(script0, trace0, max, events)
      modifies this
      ensures after == events + [ev] && after[..|events|] == events
      ensures Since(script0, trace0, max, after)
      ensures ev.Chunk? ==> |ev.data| <= max
    {
      ghost var queued := script;
      ev := Recv(max);
      after := events + [ev];
      ReceiveSnoc(script0, max, events, queued, ev, script);
      InsSnoc(events, ev);
    }

    /** `sock.sendall(b)`. */
    method SendAll(b: Bytes)
      modifies this
      ensures script == old(script)
      ensures trace == old(trace) + [Out(b)]
    {
      trace := trace + [Out(b)];
    }
  }

  /**
   * The receives of a loop that appends every chunk to a buffer starting as `init`, and stops
   * as soon as the buffer contains `marker` or when the budget of attempts is spent.
   */
  ghost predicate ReadUntil(init: Bytes, events: seq<Event>, budget: nat, marker: Bytes)
  {
    && |events| <= budget
    && (|events| > 0 ==> !Contains(init + Data(events[..|events| - 1]), marker))
    && (Contains(init + Data(events), marker) || |events| == budget)
  }

  /**
   * One pass of such a loop: `chunk = s.recv(max)`, then `buf += chunk` when the chunk is not
   * empty; the receives since `script0`/`trace0` grow by one.
   */
  method RecvAppend(s: Socket, max: nat, buf: Bytes, ghost init: Bytes, ghost events: seq<Event>, ghost budget: nat,
                    ghost marker: Bytes, ghost script0: seq<Event>, ghost trace0: seq<Io>)
    returns (grown: Bytes, ev: Event, ghost after: seq<Event>)
    requires max > 0
    requires (events, s.script) == Receive(script0, max, |events|) && s.trace == trace0 + Ins(events)
    requires Reading(init, events, budget, marker, buf) && !Contains(buf, marker) && |events| < budget
    modifies s
    ensures (after, s.script) == Receive(script0, max, |after|)
    ensures s.trace == trace0 + Ins(after)
    ensures |after| == |events| + 1 && after[..|events|] == events && after[|events|] == ev
    ensures Reading(init, after, budget, marker, grown)
    ensures grown == if ev.Chunk? && ev.data != [] then buf + ev.data else buf
  {
    ev, after := s.RecvMore(max, script0, trace0, events);
    grown := buf;
    if ev.Chunk? && ev.data != [] {
      grown := buf + ev.data;
    }
    ReadingNext(init, events, budget, marker, buf, ev, grown);
  }

  /** The loop stops at the first buffer that holds the marker, or when its budget is spent. */
  lemma ReadingStops(init: Bytes, events: seq<Event>, budget: nat, marker: Bytes, buf: Bytes)
    requires Reading(init, events, budget, marker, buf)
    requires Contains(buf, marker) || |events| == budget
    ensures ReadUntil(init, events, budget, marker)
    ensures buf == init + Data(events)
    ensures init == [] ==> buf == Data(events)
  {
    assert [] + Data(events) == Data(events);
  }

  /**
   * The state of a loop that appends every chunk to a buffer starting as `init` and looks for
   * `marker` before every receive: the receives so far fit the budget, the buffer is `init` and
   * their bytes, and the buffer before the last receive did not hold the marker.
   */
  ghost predicate Reading(init: Bytes, events: seq<Event>, budget: nat, marker: Bytes, buf: Bytes)
  {
    && |events| <= budget
    && buf == init + Data(events)
    && (events == [] || !Contains(init + Data(events[..|events| - 1]), marker))
  }

  lemma ReadingStart(init: Bytes, budget: nat, marker: Bytes)
    ensures Reading(init, [], budget, marker, init)
  {
    assert init + Data([]) == init;
  }

  /** A receive made while the buffer lacks the marker and the budget lasts: its payload, if any, is appended. */
  lemma ReadingNext(init: Bytes, events: seq<Event>, budget: nat, marker: Bytes, buf: Bytes, ev: Event, grown: Bytes)
    requires Reading(init, events, budget, marker, buf) && !Contains(buf, marker) && |events| < budget
    requires grown == if ev.Chunk? && ev.data != [] then buf + ev.data else buf
    ensures Reading(init, events + [ev], budget, marker, grown)
  {
    DropAppended(events, ev);
    DataSnocFrom(init, events, ev);
    assert buf + [] == buf;
  }

  lemma BufferBeforeLast(init: Bytes, short: seq<Event>, long: seq<Event>)
    requires |short| < |long| && long[..|short|] == short
    ensures init + Data(long[..|long| - 1]) == (init + Data(short)) + Data(long[..|long| - 1][|short|..])
  {
    var before := long[..|long| - 1];
    var extra := before[|short|..];
    assert before[..|short|] == short;
    SplitAt(before, |short|);
    DataAppend(short, extra);
    AppendAssoc(init, Data(short), Data(extra));
  }

  /** Such a loop stops at one place only: of two runs where one extends the other, both cannot qualify. */
  lemma ReadUntilStopsOnce(init: Bytes, short: seq<Event>, long: seq<Event>, budget: nat, marker: Bytes)
    requires ReadUntil(init, short, budget, marker) && ReadUntil(init, long, budget, marker)
    requires |short| <= |long| && long[..|short|] == short
    ensures short == long
  {
    if |short| < |long| {
      var buf := init + Data(short);
      var extra := Data(long[..|long| - 1][|short|..]);
      assert Contains(buf, marker);
      BufferBeforeLast(init, short, long);
      ContainsGrows(buf, extra, marker);
    }
  }

  /** A buffer that already holds the marker is returned without a single receive. */
  lemma ReadUntilBuffered(init: Bytes, events: seq<Event>, budget: nat, marker: Bytes)
    requires ReadUntil(init, events, budget, marker)
    requires Contains(init, marker)
    ensures events == []
  {
    if events != [] {
      ContainsGrows(init, Data(events[..|events| - 1]), marker);
    }
  }
}
