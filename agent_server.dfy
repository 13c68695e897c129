/**
 * The host side of the HTTP bridge that the guest's agent loop polls: a FIFO of commands
 * the guest fetches with `GET /cmd`, and a FIFO of results it posts with `POST /result`.
 * The HTTP server and its thread are not modelled; each request is one call of a handler.
 */
module AgentServer {
  import opened Wrappers
  import opened Text
  import opened Bytes
  import opened Utf8

  /** Both FIFOs, oldest entry first. */
  datatype Queues = Queues(commands: seq<string>, results: seq<Bytes>)

  /** One request of the guest: its path and, for a POST, the `Content-Length` header if sent and the bytes of the body stream. */
  datatype Request = Get(path: string) | Post(path: string, contentLength: Option<string>, stream: Bytes)

  /**
   * What a handler answers: 200 with a `text/plain` body whose `Content-Length` is the
   * body's length, 404 with an empty body, or nothing at all when the handler raises.
   */
  datatype Response = Ok(body: Bytes) | NotFound | Raised

  /** `b'ECHO:'` */
  const ECHO: Bytes := [0x45, 0x43, 0x48, 0x4F, 0x3A]

  /** `get_nowait` on the command FIFO: the oldest command, or None (`queue.Empty`) and no change. */
  function NextCommand(q: Queues): (r: (Queues, Option<string>))
    ensures r.0.results == q.results
    ensures q.commands == [] <==> r.1 == None
    ensures r.1.Some? ==> q.commands == [r.1.value] + r.0.commands
    ensures r.1.None? ==> r.0 == q
  {
    if q.commands == [] then (q, None)
    else
      assert q.commands == [q.commands[0]] + q.commands[1..];
      (q.(commands := q.commands[1..]), Some(q.commands[0]))
  }

  /** Taking from the result FIFO: the oldest result, or None and no change. */
  function NextResult(q: Queues): (r: (Queues, Option<Bytes>))
    ensures r.0.commands == q.commands
    ensures q.results == [] <==> r.1 == None
    ensures r.1.Some? ==> q.results == [r.1.value] + r.0.results
    ensures r.1.None? ==> r.0 == q
  {
    if q.results == [] then (q, None)
    else
      assert q.results == [q.results[0]] + q.results[1..];
      (q.(results := q.results[1..]), Some(q.results[0]))
  }

  /** `int(self.headers.get('Content-Length', 0))`: 0 when absent, None where `int` raises. */
  function ContentLength(header: Option<string>): Option<int>
  {
    match header
    case None => Some(0)
    case Some(h) => ParseInt(h, 10)
  }

  /**
   * `rfile.read(length)` on the handler's buffered stream: -1 reads to the end, a
   * non-negative length reads at most that many bytes, and any other length raises
   * `ValueError` (None).
   */
  function ReadBody(stream: Bytes, length: int): (body: Option<Bytes>)
    ensures body.None? <==> length < -1
    ensures body.Some? ==> body.value <= stream
    ensures length == -1 ==> body == Some(stream)
    ensures 0 <= length <= |stream| ==> body == Some(stream[..length])
    ensures length > |stream| ==> body == Some(stream)
  {
    if length < -1 then None
    else if length == -1 || length >= |stream| then
      assert stream[..|stream|] == stream;
      Some(stream)
    else Some(stream[..length])
  }

  /** `do_GET` and `do_POST`: the queues after one request, and the answer. */
  function Handle(q: Queues, req: Request): (Queues, Response)
  {
    match req
    case Get(path) =>
      if path == "/cmd" then
        var next := NextCommand(q);
        (next.0, Ok(Encode(match next.1 case Some(cmd) => cmd case None => "")))
      else (q, NotFound)
    case Post(path, header, stream) =>
      if path == "/result" then
        match ContentLength(header)
        case None => (q, Raised)
        case Some(n) =>
          match ReadBody(stream, n)
          case None => (q, Raised)
          case Some(body) => (q.(results := q.results + [body]), Ok(ECHO + body))
      else (q, NotFound)
  }

  /** A run of requests served one after the other: the final queues and every answer, in order. */
  function HandleAll(q: Queues, reqs: seq<Request>): (r: (Queues, seq<Response>))
    ensures |r.1| == |reqs|
  {
    if reqs == [] then (q, [])
    else
      var before := HandleAll(q, reqs[..|reqs| - 1]);
      var step := Handle(before.0, reqs[|reqs| - 1]);
      (step.0, before.1 + [step.1])
  }

  /** `n` requests `GET /cmd`. */
  function Gets(n: nat): (r: seq<Request>)
    ensures |r| == n && forall i :: 0 <= i < n ==> r[i] == Get("/cmd")
  {
    if n == 0 then [] else Gets(n - 1) + [Get("/cmd")]
  }

  // --- properties of the handlers ---------------------------------------------------

  /** `GET /cmd` hands out the oldest command and removes it; on an empty FIFO the body is empty and nothing changes. */
  lemma GetCommand(q: Queues)
    ensures q.commands == [] ==> Handle(q, Get("/cmd")) == (q, Ok([]))
    ensures q.commands != [] ==>
      Handle(q, Get("/cmd")) == (Queues(q.commands[1..], q.results), Ok(Encode(q.commands[0])))
  {
  }

  /** `POST /result` appends exactly the first `Content-Length` bytes (0 without the header) and echoes them behind `ECHO:`. */
  lemma PostResult(q: Queues, header: Option<string>, stream: Bytes)
    requires ContentLength(header).Some?
    requires 0 <= ContentLength(header).value <= |stream|
    ensures var body := stream[..ContentLength(header).value];
      Handle(q, Post("/result", header, stream)) == (Queues(q.commands, q.results + [body]), Ok(ECHO + body))
    ensures header.None? ==> Handle(q, Post("/result", header, stream)) == (Queues(q.commands, q.results + [[]]), Ok(ECHO))
  {
    assert stream[..|stream|] == stream;
    assert ECHO + [] == ECHO;
  }

  /**
   * A `Content-Length` that `int()` cannot read, or one below -1 that `rfile.read` refuses,
   * makes the handler raise before it touches either FIFO; these are the only cases that raise.
   */
  lemma PostBadLength(q: Queues, header: Option<string>, stream: Bytes)
    ensures ContentLength(header).None? ==> Handle(q, Post("/result", header, stream)) == (q, Raised)
    ensures ContentLength(header).Some? && ContentLength(header).value < -1 ==> Handle(q, Post("/result", header, stream)) == (q, Raised)
    ensures Handle(q, Post("/result", header, stream)).1 == Raised <==> ContentLength(header).None? || ContentLength(header).value < -1
  {
  }

  /**
   * Any other path answers 404 and changes nothing; a GET never touches the results and a
   * POST never touches the commands.
   */
  lemma HandleTouchesOneQueue(q: Queues, req: Request)
    ensures req.Get? ==> Handle(q, req).0.results == q.results
    ensures req.Post? ==> Handle(q, req).0.commands == q.commands
    ensures (req.Get? && req.path != "/cmd") || (req.Post? && req.path != "/result") ==> Handle(q, req) == (q, NotFound)
    ensures Handle(q, req).1 == NotFound <==> (req.Get? && req.path != "/cmd") || (req.Post? && req.path != "/result")
  {
  }

  /** The two FIFOs are independent: a GET and a POST give the same queues and answers in either order. */
  lemma GetPostCommute(q: Queues, get: Request, post: Request)
    requires get.Get? && post.Post?
    ensures Handle(Handle(q, get).0, post).0 == Handle(Handle(q, post).0, get).0
    ensures Handle(Handle(q, get).0, post).1 == Handle(q, post).1
    ensures Handle(Handle(q, post).0, get).1 == Handle(q, get).1
  {
  }

  lemma HandleAllSnoc(q: Queues, reqs: seq<Request>, req: Request)
    ensures HandleAll(q, reqs + [req])
      == (Handle(HandleAll(q, reqs).0, req).0, HandleAll(q, reqs).1 + [Handle(HandleAll(q, reqs).0, req).1])
  {
    assert (reqs + [req])[..|reqs|] == reqs;
  }

  /** One more `GET /cmd` after the first `k - 1` hands out command `k - 1` and removes it. */
  lemma GetsStep(q: Queues, k: nat)
    requires 0 < k <= |q.commands|
    requires HandleAll(q, Gets(k - 1)).0 == Queues(q.commands[k - 1..], q.results)
    ensures HandleAll(q, Gets(k)) == (Queues(q.commands[k..], q.results), HandleAll(q, Gets(k - 1)).1 + [Ok(Encode(q.commands[k - 1]))])
  {
    var before := HandleAll(q, Gets(k - 1));
    HandleAllSnoc(q, Gets(k - 1), Get("/cmd"));
    GetCommand(before.0);
    assert before.0.commands[1..] == q.commands[k..];
  }

  /**
   * FIFO order: `k` requests `GET /cmd` return the `k` oldest commands, in the order they were
   * pushed, and leave the rest queued and the results untouched.
   */
  lemma {:induction false} GetsInPushOrder(q: Queues, k: nat)
    requires k <= |q.commands|
    ensures HandleAll(q, Gets(k)).0 == Queues(q.commands[k..], q.results)
    ensures forall i :: 0 <= i < k ==> HandleAll(q, Gets(k)).1[i] == Ok(Encode(q.commands[i]))
  {
    if k > 0 {
      GetsInPushOrder(q, k - 1);
      GetsStep(q, k);
      var before, all := HandleAll(q, Gets(k - 1)).1, HandleAll(q, Gets(k)).1;
      assert all == before + [Ok(Encode(q.commands[k - 1]))];
      forall i | 0 <= i < k
        ensures all[i] == Ok(Encode(q.commands[i]))
      {
        if i < k - 1 {
          assert all[i] == before[i];
        }
      }
    }
  }

  /** The bridge: the two module-level FIFOs, changed in place by the handlers and the host-side calls. */
  class Bridge {
    var commands: seq<string>
    var results: seq<Bytes>

    function State(): Queues
      reads this
    {
      Queues(commands, results)
    }

    constructor ()
      ensures commands == [] && results == []
    {
      commands := [];
      results := [];
    }

    /** `push_cmd`: enqueue a command for the guest. */
    method PushCmd(cmd: string)
      modifies this
      ensures commands == old(commands) + [cmd] && results == old(results)
    {
      commands := commands + [cmd];
    }

    /** `_cmd_queue.get_nowait()` */
    method TakeCommand() returns (cmd: Option<string>)
      modifies this
      ensures (State(), cmd) == NextCommand(old(State()))
    {
      if commands == [] {
        cmd := None;
      } else {
        cmd := Some(commands[0]);
        commands := commands[1..];
      }
    }

    /** `get_result` and `_result_queue.get_nowait()`: the oldest result, or None with the FIFO unchanged. */
    method GetResult() returns (r: Option<Bytes>)
      modifies this
      ensures (State(), r) == NextResult(old(State()))
    {
      if results == [] {
        r := None;
      } else {
        r := Some(results[0]);
        results := results[1..];
      }
    }

    /** `_Handler.do_GET` */
    method DoGet(path: string) returns (resp: Response)
      modifies this
      ensures (State(), resp) == Handle(old(State()), Get(path))
    {
      if path == "/cmd" {
        var cmd := TakeCommand();
        var text := match cmd case Some(c) => c case None => "";
        resp := Ok(Encode(text));
      } else {
        resp := NotFound;
      }
    }

    /** `_Handler.do_POST` */
    method DoPost(path: string, header: Option<string>, stream: Bytes) returns (resp: Response)
      modifies this
      ensures (State(), resp) == Handle(old(State()), Post(path, header, stream))
    {
      if path == "/result" {
        var length := ContentLength(header);
        if length.None? {
          return Raised;
        }
        var read := ReadBody(stream, length.value);
        if read.None? {
          return Raised;
        }
        var body := read.value;
        results := results + [body];
        resp := Ok(ECHO + body);
      } else {
        resp := NotFound;
      }
    }

    /** The requests the guest makes while the host waits, served in order. */
    method ServeAll(reqs: seq<Request>) returns (resps: seq<Response>)
      modifies this
      ensures (State(), resps) == HandleAll(old(State()), reqs)
    {
      resps := [];
      var i := 0;
      while i < |reqs|
        invariant 0 <= i <= |reqs|
        invariant (State(), resps) == HandleAll(old(State()), reqs[..i])
      {
        var resp;
        match reqs[i] {
          case Get(path) => resp := DoGet(path);
          case Post(path, header, stream) => resp := DoPost(path, header, stream);
        }
        assert reqs[..i + 1] == reqs[..i] + [reqs[i]];
        HandleAllSnoc(old(State()), reqs[..i], reqs[i]);
        resps := resps + [resp];
        i := i + 1;
      }
      assert reqs[..i] == reqs;
    }
  }
}
