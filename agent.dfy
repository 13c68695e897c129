/**
 * The agent session on top of the bridge: the host pushes a line of guest code, the guest's
 * agent loop fetches it, runs it and posts what it wrote to `g_agent_out`, and the host takes
 * that result. The guest's polling runs concurrently with the host; here the requests it makes
 * while the host waits are given as a schedule and served, in order, inside the wait.
 */
module AgentLifecycle {
  import opened Wrappers
  import opened Seqs
  import opened Text
  import opened Bytes
  import opened Utf8
  import opened Sockets
  import opened TempleReplies
  import opened TempleProtocol
  import opened AgentServer

  /** The probe `_wait_online` pushes: `CatPrint(g_agent_out,"PONG\n");` with a literal backslash-n. */
  const PROBE: string := "CatPrint(g_agent_out,\"PONG\\n\");"
  /** `b'PONG'` */
  const PONG: Bytes := [0x50, 0x4F, 0x4E, 0x47]
  /** The command that ends the guest's agent loop. */
  const EXIT: string := "EXIT"
  /** The deadline of each of the two drains in `stop`. */
  const STOP_DRAIN_TIMEOUT: nat := 5
  /** Bytes per heap page. */
  const PAGE_SIZE: nat := 4096
  /** The guest code of `task_list`: a walk of at most 64 tasks printing one title per line. */
  const TASK_CODE: string :=
    "CTask *_t=Fs; I64 _n=0;do{  CatPrint(g_agent_out,\"%s\\n\",_t->task_title);  _t=_t->next_task; _n++;}while(_t!=Fs && _n<64);"

  /** The queues with one more command at the back. */
  function Push(q: Queues, cmd: string): (r: Queues)
    ensures r.commands == q.commands + [cmd] && r.results == q.results
  {
    q.(commands := q.commands + [cmd])
  }

  /** `run`'s exchange: push the command, serve what the guest asks while the host waits, take at most one result. */
  function Exchange(q: Queues, cmd: string, guest: seq<Request>): (Queues, Option<Bytes>)
  {
    NextResult(HandleAll(Push(q, cmd), guest).0)
  }

  /** What `run` makes of the result: '' when none came, else the text with trailing whitespace removed. */
  function RunOutput(result: Option<Bytes>): string
  {
    match result
    case None => ""
    case Some(b) => StrRStrip(Decode(b))
  }

  /** The guest's requests during the `i`-th wait of the probe loop (none past the schedule). */
  function Poll(polls: seq<seq<Request>>, i: nat): seq<Request>
  {
    if i < |polls| then polls[i] else []
  }

  /** `n` passes of `_wait_online`'s loop that found no PONG: the queues after them and the result each pass took. */
  function Probes(q: Queues, polls: seq<seq<Request>>, n: nat): (r: (Queues, seq<Option<Bytes>>))
    ensures |r.1| == n
  {
    if n == 0 then (q, [])
    else
      var before := Probes(q, polls, n - 1);
      var step := Exchange(before.0, PROBE, Poll(polls, n - 1));
      (step.0, before.1 + [step.1])
  }

  /** One more probe extends the run of probes by its exchange on the queues the last one left. */
  lemma ProbesNext(q0: Queues, polls: seq<seq<Request>>, i: nat, q: Queues, taken: seq<Option<Bytes>>, q1: Queues, r: Option<Bytes>)
    requires (q, taken) == Probes(q0, polls, i)
    requires (q1, r) == Exchange(q, PROBE, Poll(polls, i))
    ensures (q1, taken + [r]) == Probes(q0, polls, i + 1)
    ensures (taken + [r])[..i] == taken && (taken + [r])[i] == r
  {
  }

  /** Probes before a pong were not pongs; a probe that is not one either extends the run without one. */
  lemma NoPongBefore(taken: seq<Option<Bytes>>, r: Option<Bytes>)
    requires forall k :: 0 <= k < |taken| ==> !IsPong(taken[k])
    ensures var grown := taken + [r];
      && grown[|grown| - 1] == r
      && (forall k :: 0 <= k < |grown| - 1 ==> !IsPong(grown[k]))
      && (!IsPong(r) ==> forall k :: 0 <= k < |grown| ==> !IsPong(grown[k]))
  {
    var grown := taken + [r];
    assert forall k :: 0 <= k < |taken| ==> grown[k] == taken[k];
  }

  /** `r is not None and b'PONG' in r` */
  predicate IsPong(r: Option<Bytes>)
  {
    r.Some? && Contains(r.value, PONG)
  }

  /** The guest code `eval_i64` (format `%lld`) and `eval_hex` (format `%X`) run for an expression. */
  function EvalCommand(format: string, expr: string): string
  {
    "StrPrint(g_agent_out,\"" + format + "\\n\",(" + expr + "));"
  }

  /** `int(out.strip(), base)`, None where it raises. */
  function IntOutput(out: string, base: nat): Option<int>
  {
    ParseInt(StrStrip(out), base)
  }

  // --- properties ------------------------------------------------------------------

  /** The text of a result reads back when it does not end in whitespace, whatever whitespace the guest appends. */
  lemma RunOutputText(text: string, ws: string)
    requires text == "" || !IsSpace(text[|text| - 1])
    requires forall i :: 0 <= i < |ws| ==> IsSpace(ws[i])
    ensures RunOutput(Some(Encode(text + ws))) == text
    ensures RunOutput(None) == ""
  {
    DecodeEncode(text + ws);
    RStripUnique(text, ws, IsSpace);
  }

  /**
   * A number the guest prints in decimal and a newline, or a non-negative one in upper-case
   * hexadecimal, is read back by `eval_i64` / `eval_hex`.
   */
  lemma EvalReadsBack(n: int, base: nat)
    requires base == 10 || (base == 16 && n >= 0)
    ensures IntOutput(RunOutput(Some(Encode(Show(n, base) + "\n"))), base) == Some(n)
  {
    var r := Show(n, base);
    assert IsDigit(r[|r| - 1], base);
    RunOutputText(r, "\n");
    StripShow(n, base);
    ParseShow(n, base);
  }

  /** A result is taken only after the guest posted it: with nothing posted before or during the wait, `run` gives ''. */
  lemma NoResultNoOutput(q: Queues, cmd: string, guest: seq<Request>)
    requires q.results == []
    requires forall i :: 0 <= i < |guest| ==> guest[i].Get?
    ensures Exchange(q, cmd, guest).1 == None && RunOutput(Exchange(q, cmd, guest).1) == ""
  {
    GetsKeepResults(Push(q, cmd), guest);
  }

  lemma {:induction false} GetsKeepResults(q: Queues, guest: seq<Request>)
    requires forall i :: 0 <= i < |guest| ==> guest[i].Get?
    ensures HandleAll(q, guest).0.results == q.results
  {
    if guest != [] {
      GetsKeepResults(q, guest[..|guest| - 1]);
      HandleTouchesOneQueue(HandleAll(q, guest[..|guest| - 1]).0, guest[|guest| - 1]);
    }
  }

  /** One exchange as intended: the guest fetches the command it was sent and posts its output, which `run` returns. */
  lemma ExchangeRoundTrip(cmd: string, header: Option<string>, body: Bytes, extra: Bytes)
    requires ContentLength(header) == Some(|body|)
    ensures var served := HandleAll(Push(Queues([], []), cmd), [Get("/cmd"), Post("/result", header, body + extra)]);
      served.1 == [Ok(Encode(cmd)), Ok(ECHO + body)]
      && Exchange(Queues([], []), cmd, [Get("/cmd"), Post("/result", header, body + extra)]) == (Queues([], []), Some(body))
  {
    var reqs := [Get("/cmd"), Post("/result", header, body + extra)];
    var q := Push(Queues([], []), cmd);
    assert q.commands == [cmd];
    GetCommand(q);
    assert q.commands[1..] == [];
    assert Handle(q, Get("/cmd")) == (Queues([], []), Ok(Encode(cmd)));
    HandleAllSnoc(q, [], Get("/cmd"));
    assert [] + [Get("/cmd")] == [Get("/cmd")];
    assert [] + [Ok(Encode(cmd))] == [Ok(Encode(cmd))];
    assert HandleAll(q, [Get("/cmd")]) == (Queues([], []), [Ok(Encode(cmd))]);
    assert (body + extra)[..|body|] == body;
    PostResult(Queues([], []), header, body + extra);
    assert Handle(Queues([], []), Post("/result", header, body + extra)) == (Queues([], [] + [body]), Ok(ECHO + body));
    assert [] + [body] == [body];
    HandleAllSnoc(q, [Get("/cmd")], Post("/result", header, body + extra));
    assert [Get("/cmd")] + [Post("/result", header, body + extra)] == reqs;
    assert [Ok(Encode(cmd))] + [Ok(ECHO + body)] == [Ok(Encode(cmd)), Ok(ECHO + body)];
    assert HandleAll(q, reqs) == (Queues([], [body]), [Ok(Encode(cmd)), Ok(ECHO + body)]);
  }

  /**
   * While the guest makes no request, probes pile up in the command FIFO, one per pass, and no
   * result comes: the stale probes that `_wait_online` flushes once the agent answers.
   */
  lemma {:induction false} StaleProbesAccumulate(n: nat)
    ensures Probes(Queues([], []), [], n) == (Queues(seq(n, i => PROBE), []), seq(n, i => None))
  {
    if n == 0 {
      assert seq(n, i => PROBE) == [];
      assert seq<Option<Bytes>>(n, i => None) == [];
    } else {
      StaleProbesAccumulate(n - 1);
      var before := Probes(Queues([], []), [], n - 1);
      assert Poll([], n - 1) == [];
      var pushed := Push(before.0, PROBE);
      assert HandleAll(pushed, []).0 == pushed;
      assert pushed.results == [];
      assert Exchange(before.0, PROBE, []) == (pushed, None);
      assert seq(n - 1, i => PROBE) + [PROBE] == seq(n, i => PROBE);
      assert seq<Option<Bytes>>(n - 1, i => None) + [None] == seq<Option<Bytes>>(n, i => None);
    }
  }

  /** Fewer passes of the probe loop record a prefix of the results more passes record. */
  lemma {:induction false} ProbesPrefix(q: Queues, polls: seq<seq<Request>>, m: nat, n: nat)
    requires m <= n
    ensures Probes(q, polls, n).1[..m] == Probes(q, polls, m).1
    decreases n
  {
    if m < n {
      ProbesPrefix(q, polls, m, n - 1);
      var before := Probes(q, polls, n - 1);
      var step := Exchange(before.0, PROBE, Poll(polls, n - 1));
      assert Probes(q, polls, n).1 == before.1 + [step.1];
      TakeAppended(before.1, step.1, m);
    } else {
      assert Probes(q, polls, n).1[..m] == Probes(q, polls, n).1;
    }
  }

  // --- the host side ------------------------------------------------------------------

  /** `_flush_queues`: empties the command FIFO, then the result FIFO; on empty FIFOs it changes nothing. */
  method FlushQueues(b: Bridge)
    modifies b
    ensures b.commands == [] && b.results == []
  {
    while b.commands != []
      invariant b.results == old(b.results)
      decreases |b.commands|
    {
      var c := b.TakeCommand();
    }
    while b.results != []
      invariant b.commands == []
      decreases |b.results|
    {
      var r := b.GetResult();
    }
  }

  /** `push_cmd(cmd)` then `get_result()`, with the guest's requests served while the host waits. */
  method PushAndTake(b: Bridge, cmd: string, guest: seq<Request>) returns (r: Option<Bytes>)
    modifies b
    ensures (b.State(), r) == Exchange(old(b.State()), cmd, guest)
  {
    ghost var q := b.State();
    b.PushCmd(cmd);
    assert b.State() == Push(q, cmd);
    var answered := b.ServeAll(guest);
    r := b.GetResult();
  }

  /** What `_wait_online` does once the agent answered: flush, let the guest finish a fetched probe, flush again. */
  method Settle(b: Bridge, settle: seq<Request>)
    modifies b
    ensures b.commands == [] && b.results == []
  {
    FlushQueues(b);
    var late := b.ServeAll(settle);
    FlushQueues(b);
  }

  class Agent {
    /** The module-level FIFOs this agent shares with the HTTP handlers. */
    const bridge: Bridge
    /** `_t`: the serial connection opened by `start`, or None. */
    var t: Temple?
    /** `_live`: set once the agent answered a probe, cleared by `stop`. */
    var live: bool

    constructor (bridge: Bridge)
      ensures this.bridge == bridge && t == null && !live
    {
      this.bridge := bridge;
      t := null;
      live := false;
    }

    /**
     * `_wait_online`: each pass pushes one probe and takes at most one result; a result with
     * `PONG` ends the wait after flush, settle, flush; otherwise the loop goes on until the
     * deadline, `budget` passes.
     */
    method WaitOnline(budget: nat, polls: seq<seq<Request>>, settle: seq<Request>)
      returns (online: bool, ghost taken: seq<Option<Bytes>>)
      modifies bridge
      ensures |taken| <= budget && taken == Probes(old(bridge.State()), polls, |taken|).1
      ensures online <==> taken != [] && IsPong(taken[|taken| - 1])
      ensures forall k :: 0 <= k < |taken| - 1 ==> !IsPong(taken[k])
      ensures !online ==> |taken| == budget && bridge.State() == Probes(old(bridge.State()), polls, budget).0
      ensures online ==> bridge.commands == [] && bridge.results == []
    {
      var i := 0;
      taken := [];
      ghost var q0 := bridge.State();
      while i < budget
        invariant i == |taken| <= budget
        invariant (bridge.State(), taken) == Probes(q0, polls, i)
        invariant forall k :: 0 <= k < |taken| ==> !IsPong(taken[k])
      {
        ghost var q, before := bridge.State(), taken;
        var r := PushAndTake(bridge, PROBE, Poll(polls, i));
        taken := taken + [r];
        ProbesNext(q0, polls, i, q, before, bridge.State(), r);
        NoPongBefore(before, r);
        i := i + 1;
        if r.Some? && Contains(r.value, PONG) {
          Settle(bridge, settle);
          return true, taken;
        }
      }
      online := false;
    }

    /**
     * `start`: flushes stale FIFOs before anything else, opens the serial connection on `sock`,
     * waits for the agent, and sets `live` only if it came online.
     */
    method Start(budget: nat, sock: Socket, polls: seq<seq<Request>>, settle: seq<Request>)
      returns (ok: bool, ghost taken: seq<Option<Bytes>>)
      modifies this, bridge
      ensures fresh(t) && t.s == sock && t.defaultTimeout == DEFAULT_TIMEOUT
      ensures |taken| <= budget && taken == Probes(Queues([], []), polls, |taken|).1
      ensures ok <==> taken != [] && IsPong(taken[|taken| - 1])
      ensures ok ==> live && bridge.commands == [] && bridge.results == []
      ensures !ok ==> live == old(live) && |taken| == budget && bridge.State() == Probes(Queues([], []), polls, budget).0
    {
      FlushQueues(bridge);
      assert bridge.State() == Queues([], []);
      t := new Temple(DEFAULT_TIMEOUT);
      t.Connect(sock);
      ok, taken := WaitOnline(budget, polls, settle);
      if ok {
        live := true;
      }
    }

    /** The socket `stop` drains, if there is one. */
    function Serial(): set<object>
      reads this, t
    {
      if t != null && t.s != null then {t.s} else {}
    }

    /**
     * `stop`: nothing when not live; otherwise pushes `EXIT`, clears `live` and, with a serial
     * connection, drains two frames with 5-attempt deadlines.
     */
    method Stop() returns (ghost first: seq<Event>, ghost second: seq<Event>)
      requires t != null ==> t.s != null
      modifies this, bridge, Serial()
      ensures !live && t == old(t)
      ensures !old(live) ==>
        (bridge.State() == old(bridge.State()) && first == [] && second == []
         && (t != null ==> t.s.script == old(t.s.script) && t.s.trace == old(t.s.trace)))
      ensures old(live) ==> bridge.commands == old(bridge.commands) + [EXIT] && bridge.results == old(bridge.results)
      ensures old(live) && t != null ==>
        var mid := Receive(old(t.s.script), RECV_SIZE, |first|).1;
        && FrameRead(old(t.s.script), first, mid, STOP_DRAIN_TIMEOUT)
        && FrameRead(mid, second, t.s.script, STOP_DRAIN_TIMEOUT)
        && t.s.trace == old(t.s.trace) + Ins(first) + Ins(second)
    {
      first, second := [], [];
      if !live {
        return;
      }
      bridge.PushCmd(EXIT);
      live := false;
      if t != null {
        first := t.Drain(STOP_DRAIN_TIMEOUT);
        second := t.Drain(STOP_DRAIN_TIMEOUT);
      }
    }

    /** `run`: pushes the command, waits while the guest makes its requests, and takes one result. */
    method Run(code: string, guest: seq<Request>) returns (out: string, ghost result: Option<Bytes>)
      modifies bridge
      ensures (bridge.State(), result) == Exchange(old(bridge.State()), code, guest)
      ensures out == RunOutput(result)
    {
      var r := PushAndTake(bridge, code, guest);
      result := r;
      if r.None? {
        return "", result;
      }
      out := StrRStrip(Decode(r.value));
    }

    /** `eval_i64`: prints the expression with `%lld` and reads the output as a decimal integer. */
    method EvalI64(expr: string, guest: seq<Request>) returns (v: Option<int>, ghost result: Option<Bytes>)
      modifies bridge
      ensures (bridge.State(), result) == Exchange(old(bridge.State()), EvalCommand("%lld", expr), guest)
      ensures v == IntOutput(RunOutput(result), 10)
    {
      var out;
      out, result := Run(EvalCommand("%lld", expr), guest);
      v := ParseInt(StrStrip(out), 10);
    }

    /** `eval_hex`: prints the expression with `%X` and reads the output in base 16. */
    method EvalHex(expr: string, guest: seq<Request>) returns (v: Option<int>, ghost result: Option<Bytes>)
      modifies bridge
      ensures (bridge.State(), result) == Exchange(old(bridge.State()), EvalCommand("%X", expr), guest)
      ensures v == IntOutput(RunOutput(result), 16)
    {
      var out;
      out, result := Run(EvalCommand("%X", expr), guest);
      v := ParseInt(StrStrip(out), 16);
    }

    /** `free_mem`: the free page count times the page size, or None when it did not parse. */
    method FreeMem(guest: seq<Request>) returns (bytes: Option<int>, ghost result: Option<Bytes>)
      modifies bridge
      ensures (bridge.State(), result) == Exchange(old(bridge.State()), EvalCommand("%lld", "Mem.raw_pages - Mem.raw_used"), guest)
      ensures var pages := IntOutput(RunOutput(result), 10);
        (bytes.None? <==> pages.None?) && (bytes.Some? ==> bytes.value == pages.value * PAGE_SIZE)
    {
      var pages;
      pages, result := EvalI64("Mem.raw_pages - Mem.raw_used", guest);
      bytes := if pages.Some? then Some(pages.value * PAGE_SIZE) else None;
    }

    /** `task_list`: the non-empty lines of the walk's output, in order. */
    method TaskList(guest: seq<Request>) returns (names: seq<string>, ghost result: Option<Bytes>)
      modifies bridge
      ensures (bridge.State(), result) == Exchange(old(bridge.State()), TASK_CODE, guest)
      ensures names == NonEmptyLines(SplitLines(RunOutput(result)))
      ensures forall l :: l in names <==> l in SplitLines(RunOutput(result)) && l != ""
    {
      var out;
      out, result := Run(TASK_CODE, guest);
      names := NonEmptyLines(SplitLines(out));
      forall l ensures l in names <==> l in SplitLines(out) && l != "" {
        NonEmptyLinesMembers(SplitLines(out), l);
      }
    }
  }
}
