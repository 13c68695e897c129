# temple serial host tools — a Dafny model

This project models the host side of a set of tools that drive a TempleOS guest. The tools
talk to the guest over a serial socket and over a small HTTP bridge. Six pieces are modelled:

- **The framed serial protocol client** (`Temple`). Every command line sent to the guest's
  REPL is answered by two frames, each ended by the 8-byte terminator
  `04 CA FE BA BE 04 FA CE`. The first frame is the command's payload and the second is the
  REPL's `OK`. A file upload runs a sub-protocol of single `\x04` bytes. The reply
  classifiers (`list_dir`, `file_exists`, `exec_i64`, `exec_str`, `symbol_exists`,
  `list_symbols`, `exec_rows`, `exec_kv`) and the exception-code decoder are pure functions
  of the first frame.
- **The command/result bridge.** It has two FIFOs: commands that the guest fetches with
  `GET /cmd`, and results that it posts with `POST /result`. The host uses `push_cmd` and
  `get_result`.
- **The agent session** on top of the bridge: flushing both FIFOs, the `PONG` probe loop
  with its flush–settle–flush, `run`, the output parsers (`eval_i64`, `eval_hex`,
  `task_list`, `free_mem`) and the `live` flag kept by `start` and `stop`.
- **The results file of the guest test runner**: the tab-separated parser, the
  pass/fail/observation counters and the exit status.
- **The serial protocol check**: a buffered reader that waits for a line holding `READY`,
  then collects EOT-framed responses. The transmit-side comparison is modelled with it.
- **The REPL check**: it waits for `REPL_READY`, then reads one EOT-framed response per
  command. The bytes that follow a response are threaded into the next read.

## How the model is built

- **Sockets.** A socket (`Sockets.Socket`) holds the peer's *script*: what each `recv` call
  will produce, as a chunk of bytes, an empty chunk once the peer has closed, or a timeout.
  It also holds a *trace* of the whole conversation, sends and receives in the order they
  happened. Each method's `ensures` ties the new trace and the rest of the script to the
  old ones.
- **Deadlines and sleeps.** The model has no clock. A wall-clock deadline becomes a budget
  of `recv` attempts, and every receive counts against it. What a budget means in seconds
  depends on the loop:
  - `_recv_until_term` (`serial/temple.py:94-104`) and `read_eot`
    (`serial/verify_serrepl.py:33-45`) receive with a 1-second timeout. A deadline of N
    seconds then allows about N receives that time out. A data chunk, or the empty chunk of
    a closed peer, comes back at once, so within the same deadline the source can make many
    more receives than the budget allows.
  - The serial protocol check's `_fill` (`serial/test_serproto.py:54-59`) sets the timeout
    to the whole remaining deadline, so one receive can wait it out. Its timeout raises at
    once (`serial/test_serproto.py:70-72`, `100-103`), and the model has this as a
    `Timeout` event that ends the wait. The budget there bounds only the number of chunks.

  Sleeps are no-ops.
- **The guest.** In the agent session, the guest's agent loop runs concurrently with the
  host. It is modelled as a schedule of requests that are served, in order, while the host
  waits for a result.
- **Python's own behaviour** is written out where the code relies on it:
  - `str.strip`/`rstrip`, with Python's whitespace set;
  - `str.splitlines`, with all of its line boundaries;
  - `str.split`;
  - `int()` in bases 10 and 16, with underscores and `0x`, for ASCII digits;
  - UTF-8 `encode`, and `decode(errors='replace')`;
  - `bytes.strip`.

### Where temple.py's docstrings and its code differ

The model follows the code in both places below:

- The module docstring says every command yields two terminated frames, and that a drain
  consumes the second (`serial/temple.py:14-20`). But `send_cmd`
  (`serial/temple.py:111-118`) throws away whatever followed the first terminator. Every
  read of a frame then starts from an empty buffer (`serial/temple.py:92`). So when the
  payload and the acknowledgement arrive in one chunk, the acknowledgement is lost and the
  drain waits out its whole deadline. The lemma `TempleProtocol.CoalescedAckIsLost` states
  this.
- `_decode_except_ch`'s docstring describes how exception codes are decoded
  (`serial/temple.py:45-47`), but the function (`serial/temple.py:44-53`) is never called.
  `exec_i64` and `exec_str` report the text after `EXCEPT:`, stripped
  (`serial/temple.py:268`, `291`). The decoder is modelled and proved on its own, and the
  classifiers do not use it.

## Model

| member | source | states |
|---|---|---|
| TempleProtocol.FirstFrameSplits | serial/temple.py:100-102 | A frame is found exactly when the buffer holds `TERM`. When it is found, frame + `TERM` + rest is the buffer and the frame holds no `TERM`. Otherwise the result is `(None, b'')`. |
| TempleProtocol.TermHasNoBorder | serial/temple.py:30 | No proper suffix of the terminator is also a prefix of it, so two occurrences of it never overlap. |
| TempleProtocol.FrameRoundTrip | serial/temple.py:100-102 | A payload without `TERM`, framed and followed by anything, reads back as the first frame, and the bytes after the terminator are the rest. |
| TempleProtocol.FrameOfStream | serial/temple.py:95-102 | Once a buffer holds `TERM`, its frame is the first frame of any longer stream, so the frame does not depend on how the bytes were cut into chunks. |
| TempleProtocol.FrameStops | serial/temple.py:92-105 | Where the read loop stops (terminator found, or budget spent), the receives form a complete frame read and the buffer's frame is the frame of all bytes received. |
| TempleProtocol.SplitTerminatorFound | serial/temple.py:95-102 | A terminator split across two chunks is found after the second receive, with the right frame, because the search runs on the cumulative buffer. |
| TempleProtocol.OneChunkFrameRead | serial/temple.py:95-102 | A read against one queued chunk that holds a terminator takes exactly that chunk and leaves nothing queued. |
| TempleProtocol.OneChunkReply | serial/temple.py:95-102 | A single queued chunk that holds a frame is read whole, and its first frame is the reply. |
| TempleProtocol.NothingQueuedRead | serial/temple.py:103-105 | With nothing queued, every attempt times out, the whole budget is used and the reply is None. |
| TempleProtocol.CoalescedAckIsLost | serial/temple.py:111-118 | When payload and acknowledgement arrive in one chunk: the first read returns the payload frame; the acknowledgement is dropped with the rest; the drain then spends its whole deadline and finds no frame. |
| TempleProtocol.Temple.constructor | serial/temple.py:63-66 | A new client has no socket and keeps the given default deadline, 20 by default. |
| TempleProtocol.Temple.Connect | serial/temple.py:75-77 | The client's socket is the connected one. |
| TempleProtocol.Temple.Close | serial/temple.py:79-82 | The client has no socket afterwards. |
| TempleProtocol.Temple.RecvUntilTerm | serial/temple.py:88-105 | Receives until the buffer holds `TERM` or the budget is spent, never fewer, never more. Returns the first frame of all bytes received and what followed the terminator, or `(None, b'')`. An empty chunk does not end the read. The trace grows by exactly those receives. |
| TempleProtocol.Temple.Drain | serial/temple.py:107-109 | Exactly one more frame read, whose frame is discarded. |
| TempleProtocol.Temple.SendCmd | serial/temple.py:111-118 | Sends exactly `cmd + '\n'` encoded, then performs one frame read and then one drain. The drain starts on what the first read left queued. The result is the first read's frame. |
| TempleProtocol.Temple.IsFrozen | serial/temple.py:120-134 | Sends `;\n` and reads one frame within the given budget (3 attempts by default). The result is true exactly when that read found a terminator, and only then is a drain of 2 attempts performed. With no socket the result is false and nothing is sent. |
| TempleProtocol.Temple.Exec | serial/temple.py:255-257 | One command exchange with the code as the line; the result is its frame. |
| TempleProtocol.Temple.ListDir | serial/temple.py:194-208 | One `SerDir("pattern");` exchange. The result is the kept entries of the frame's lines, with none for a missing or empty frame. |
| TempleProtocol.Temple.ReadFile | serial/temple.py:210-217 | A banned path fails with `ValueError` and sends and receives nothing. Any other path is exactly one `SerFileRead("path");` exchange with the given deadline, returning its frame. |
| TempleProtocol.Temple.WaitReady | serial/temple.py:224-237 | Receives in pieces of at most 256 bytes until `\x04` has arrived or 10 attempts are spent, neither fewer nor more. |
| TempleProtocol.Temple.WriteFile | serial/temple.py:219-242 | The wire sequence is: the `SerFileWrite` line; the ready wait, going on whether or not the byte came; exactly `content + b'\x04'`; a frame read with deadline 10; a drain. |
| TempleProtocol.Temple.FileExists | serial/temple.py:244-249 | One `SerFileExists` exchange; the result is the file-exists classification of its frame. |
| TempleProtocol.Temple.ExecI64 | serial/temple.py:259-271 | Two exchanges in order, `g_r=expr;` and then `SerGetI64(g_r);`. The result is the classification of the second frame. |
| TempleProtocol.Temple.ExecStr | serial/temple.py:273-293 | A single `GStrReset();<code>SerSendStr();` exchange; the result is the `exec_str` classification of its frame. |
| TempleProtocol.Temple.SymbolExists | serial/temple.py:295-297 | `exec_str` of `SerSymExists("name");`, true exactly when the text is `1`; an exception passes through. |
| TempleProtocol.Temple.ListSymbols | serial/temple.py:299-314 | One `SerSymList(mask);` exchange with the kind's mask in decimal (kind `functions` and not detailed by default); the result is the listing parsed from its frame. |
| TempleProtocol.Temple.ExecRows | serial/temple.py:331-336 | On an `exec_str` success, the tab-split non-empty lines of its text; an exception passes through. |
| TempleProtocol.Temple.ExecKv | serial/temple.py:338-340 | On an `exec_str` success, the dictionary of its rows; an exception passes through. |
| TempleReplies.PackI64 | serial/temple.py:51 | `struct.pack('<q', n)` gives exactly 8 bytes. |
| TempleReplies.AsciiReplace | serial/temple.py:51 | ASCII decoding with replacement gives one character per byte. |
| TempleReplies.HexWord | serial/temple.py:50-51 | A hexadecimal text is accepted only when its value fits a signed 64-bit word. |
| TempleReplies.DecodeExceptCh | serial/temple.py:44-53 | Never fails. On an error, including a value out of range, the input comes back unchanged. Otherwise the result has at most 8 characters, none of them a trailing NUL, and each is ASCII or U+FFFD. |
| TempleReplies.ExceptCodeRoundTrip | serial/temple.py:44-53 | Any name of at most 8 non-NUL ASCII characters, packed little-endian into a word and printed in hexadecimal, decodes back to the name. |
| TempleReplies.CompilerCode | serial/temple.py:47 | `'Compiler'` is the word 0x72656C69706D6F43, and that word decodes back to `'Compiler'`. |
| TempleReplies.CleanEntry | serial/temple.py:205 | An entry has no NUL and no whitespace at either end. |
| TempleReplies.DirEntryOf | serial/temple.py:205-207 | An entry the filter keeps starts with `C:/`, does not end in `/.` or `/..`, and is clean. |
| TempleReplies.KeptEntriesMembers | serial/temple.py:204-208 | An entry is listed exactly when some line cleans to it and it passes the filter, and then it is free of NULs and surrounding whitespace. |
| TempleReplies.KeptEntriesAppend | serial/temple.py:204-208 | Listing keeps line order: the entries of two runs of lines are the entries of the first, then those of the second. |
| TempleReplies.FilterListing | serial/temple.py:203-208 | The filtering loop returns exactly the kept entries of the lines, in order. |
| TempleReplies.ParseDirListing | serial/temple.py:199-208 | Gives nothing for a missing or empty frame, else the filtered lines of the stripped, decoded frame. |
| TempleReplies.FileExistsIff | serial/temple.py:244-249 | True exactly when a frame came and it is a single `1` with only ASCII whitespace around it. |
| TempleReplies.ExecI64Reply | serial/temple.py:264-271 | Raises `TempleException` exactly when the frame starts with `EXCEPT:`. Gives None exactly when no frame came, or when the stripped text is empty. |
| TempleReplies.ExecI64Number | serial/temple.py:270-271 | A number printed in decimal reads back as that number. |
| TempleReplies.ExecI64Except | serial/temple.py:267-269 | `EXCEPT:<name>` raises `TempleException` with the stripped name. |
| TempleReplies.ExecStrReply | serial/temple.py:286-293 | Raises `TempleException('exception')` exactly on the frame `OK`, or on `EXCEPT:` followed by text that strips to `exception`. An empty text comes only from a missing or empty frame. |
| TempleReplies.ExecStrText | serial/temple.py:293 | Any text other than `OK` and `EXCEPT:…` is returned unchanged after the wire round trip. |
| TempleReplies.ExecStrExcept | serial/temple.py:290-292 | `EXCEPT:<name>` raises `TempleException` with the stripped name. |
| TempleReplies.SymbolExistsIff | serial/temple.py:295-297 | A symbol exists exactly when the frame is the single byte `1`. |
| TempleReplies.SymbolMaskBits | serial/temple.py:306-307 | Functions, globals and classes are the single bits 6, 3 and 4 (64, 8, 16), `all` is the 17 low bits (131071), and any other kind means functions. |
| TempleReplies.NonEmptyLines | serial/temple.py:311 | Keeps no empty line and never more lines than given. |
| TempleReplies.NonEmptyLinesMembers | serial/temple.py:311 | A line is kept exactly when it is one of the lines and not empty. |
| TempleReplies.NonEmptyLinesAppend | serial/temple.py:311 | Filtering two runs of lines keeps their order. |
| TempleReplies.RowsOf | serial/temple.py:336 | One non-empty row per non-empty line, and no field holds a tab. |
| TempleReplies.RowsJoin | serial/temple.py:336 | Nothing is lost: each row joined back with tabs gives its non-empty line. |
| TempleReplies.ListSymbolsReply | serial/temple.py:312-314 | Names without `detailed`, (name, kind) pairs with it. |
| TempleReplies.ListSymbolsLines | serial/temple.py:309-314 | One symbol per non-empty line, in order. The name is the line up to its first tab. The kind is the text between the first and second tab, or `''`. |
| TempleReplies.KeyValuesLastWins | serial/temple.py:340 | A key is present exactly when some row starts with it. Its value is the second field, or `''`, of the last such row. |
| AgentServer.NextCommand | serial/agent_server.py:29-32 | Takes the oldest command, and None exactly when the FIFO is empty, in which case nothing changes. Results are untouched. |
| AgentServer.NextResult | serial/agent_server.py:75-78 | Takes the oldest result, and None exactly when the FIFO is empty, in which case nothing changes. Commands are untouched. |
| AgentServer.ReadBody | serial/agent_server.py:47 | `rfile.read(n)` returns a prefix of the stream: the first `n` bytes, or all of it for `n == -1` or `n` past the end; any `n` below -1 raises `ValueError`. |
| AgentServer.HandleAll | serial/agent_server.py:25-58 | One answer per request served. |
| AgentServer.GetCommand | serial/agent_server.py:28-38 | `GET /cmd` answers 200 with the oldest command, encoded, and removes it. On an empty FIFO it answers an empty body and changes nothing. |
| AgentServer.PostResult | serial/agent_server.py:45-54 | `POST /result` appends exactly the first Content-Length bytes (0 without the header) to the results and answers `ECHO:` + body. |
| AgentServer.PostBadLength | serial/agent_server.py:46-47 | A Content-Length that `int()` rejects, or one below -1 that `rfile.read` refuses, raises before either FIFO changes; `POST /result` raises in exactly these cases. |
| AgentServer.HandleTouchesOneQueue | serial/agent_server.py:27-58 | A GET never touches the results and a POST never touches the commands. The answer is 404 exactly on other paths, which change nothing. |
| AgentServer.GetPostCommute | serial/agent_server.py:21-58 | A GET and a POST give the same queues and the same answers in either order. |
| AgentServer.GetsInPushOrder | serial/agent_server.py:28-33 | FIFO order: `k` requests `GET /cmd` return the `k` oldest commands in push order, and leave the rest and the results. |
| AgentServer.Bridge.constructor | serial/agent_server.py:21-22 | Both FIFOs start empty. |
| AgentServer.Bridge.PushCmd | serial/agent_server.py:68-70 | `push_cmd` appends the command at the back and leaves the results. |
| AgentServer.Bridge.TakeCommand | serial/agent_server.py:29-32 | The command FIFO's `get_nowait`, as `NextCommand`. |
| AgentServer.Bridge.GetResult | serial/agent_server.py:73-78 | `get_result`: the oldest result, or None with the FIFOs unchanged. |
| AgentServer.Bridge.DoGet | serial/agent_server.py:27-42 | The new queues and the answer are those of `do_GET`. |
| AgentServer.Bridge.DoPost | serial/agent_server.py:44-58 | The new queues and the answer are those of `do_POST`. |
| AgentServer.Bridge.ServeAll | serial/agent_server.py:25-58 | A run of guest requests served in order. |
| AgentLifecycle.Push | serial/agent_server.py:68-70 | One more command at the back, results unchanged. |
| AgentLifecycle.Probes | serial/agent.py:328-331 | One recorded result per probe pass. What the passes leave and take is stated by `ProbesPrefix`, `StaleProbesAccumulate` and `Agent.WaitOnline`. |
| AgentLifecycle.RunOutputText | serial/agent.py:162-166 | Text that does not end in whitespace reads back whatever whitespace the guest appends, and no result gives `''`. |
| AgentLifecycle.EvalReadsBack | serial/agent.py:179-209 | A number printed in decimal, or a non-negative one in upper-case hexadecimal, followed by a newline, is read back by `eval_i64` / `eval_hex`. |
| AgentLifecycle.NoResultNoOutput | serial/agent.py:162-166 | With nothing posted before or during the wait, `run` takes no result and returns `''`. |
| AgentLifecycle.ExchangeRoundTrip | serial/agent.py:162-166 | In one intended exchange, the guest fetches exactly the pushed command, posts its output, and `run` returns that output. |
| AgentLifecycle.StaleProbesAccumulate | serial/agent.py:318-331 | While the guest makes no request, one probe piles up in the command FIFO per pass and no result comes. |
| AgentLifecycle.ProbesPrefix | serial/agent.py:328-331 | Fewer passes record a prefix of what more passes record. |
| AgentLifecycle.FlushQueues | serial/agent.py:44-48 | Both FIFOs are empty afterwards, so a second call changes nothing. |
| AgentLifecycle.PushAndTake | serial/agent.py:162-163 | Push one command, serve the guest's requests, take at most one result. |
| AgentLifecycle.Settle | serial/agent.py:333-338 | Flush, serve the guest's late requests, flush again: both FIFOs are empty. |
| AgentLifecycle.Agent.constructor | serial/agent.py:68-72 | No serial connection and not live. |
| AgentLifecycle.Agent.WaitOnline | serial/agent.py:318-340 | Each pass pushes one probe and takes at most one result. It returns true exactly when the last result taken holds `PONG`, and no earlier result did; both FIFOs are then empty. Otherwise every pass of the budget ran. |
| AgentLifecycle.Agent.Start | serial/agent.py:91-121 | Flushes before anything else, so the probes start on empty FIFOs, and opens a fresh serial client on the socket. `live` is set only when the agent came online, with both FIFOs then empty. Otherwise `live` is unchanged, every pass of the budget was spent, and the FIFOs hold what the probes left, unanswered probes included. |
| AgentLifecycle.Agent.Stop | serial/agent.py:123-132 | Does nothing when not live. Otherwise it pushes `EXIT` and clears `live`; with a serial connection it drains two frames of 5 attempts each, in order. |
| AgentLifecycle.Agent.Run | serial/agent.py:151-166 | Pushes exactly the code and takes at most one result. Gives `''` when none came, else the decoded text right-stripped. |
| AgentLifecycle.Agent.EvalI64 | serial/agent.py:179-186 | Runs `StrPrint(g_agent_out,"%lld\n",(expr));` and reads the output as a decimal `int`, or None where `int` raises. |
| AgentLifecycle.Agent.EvalHex | serial/agent.py:202-209 | The same with `%X` and base 16. |
| AgentLifecycle.Agent.FreeMem | serial/agent.py:217-224 | Pages times 4096, or None when the page count does not parse. |
| AgentLifecycle.Agent.TaskList | serial/agent.py:226-240 | Exactly the non-empty output lines, in order. |
| RunTests.ParseFrom | serial/run_tests.py:85-95 | At most one row per line. |
| RunTests.ParseResults | serial/run_tests.py:82-96 | The parsing loop computes the rows of the decoded file's lines, starting in suite `?`. |
| RunTests.SkipNext | serial/run_tests.py:86-87 | In the loop, a blank line or the column header leaves the suite and the rows as they were. |
| RunTests.HeaderNext | serial/run_tests.py:88-90 | In the loop, a `# ` line makes its stripped remainder the suite and yields no row. |
| RunTests.DataNext | serial/run_tests.py:91-95 | In the loop, any other line appends its row under the current suite. |
| RunTests.ParseFromAppend | serial/run_tests.py:85-96 | Parsing two runs of lines is parsing the second from the suite the first ends in, with the rows in line order. |
| RunTests.SkippedLine | serial/run_tests.py:86-87 | Blank lines and lines starting with `suite\t` yield no row and keep the suite. |
| RunTests.HeaderLine | serial/run_tests.py:88-90 | `# name` yields no row and makes the stripped name the suite. |
| RunTests.DataLine | serial/run_tests.py:91-95 | `name<TAB>status<TAB>detail` yields exactly that row under the current suite, with the detail right-stripped. |
| RunTests.NameOnlyLine | serial/run_tests.py:92-94 | A data line without a tab gives status `?` and detail `''`. |
| RunTests.SuiteStartsUnknown | serial/run_tests.py:84 | Without a header line, every row is in suite `?`. |
| RunTests.NoHeaderKeepsSuite | serial/run_tests.py:84-96 | Lines without a header keep the suite, and every row they yield carries it. |
| RunTests.CountStatus | serial/run_tests.py:106-111 | A count of rows never exceeds the number of rows. |
| RunTests.CountFailed | serial/run_tests.py:112-114 | The failed count never exceeds the number of rows. |
| RunTests.CountsPartition | serial/run_tests.py:100-115 | passed + failed + obs equals the number of rows. |
| RunTests.NoFailures | serial/run_tests.py:106-114 | No row failed exactly when every status is `PASS` or `OBS`. |
| RunTests.SummaryMentionsObs | serial/run_tests.py:117-120 | The summary mentions `obs` exactly when obs > 0. |
| RunTests.PrintResults | serial/run_tests.py:99-121 | The counts are those of `PASS`, of `OBS` and of everything else; they sum to the number of rows; the summary is built from them. |
| RunTests.MainExit | serial/run_tests.py:124-147 | The exit status is 0 or 1. |
| RunTests.MainExitZero | serial/run_tests.py:127-147 | The exit status is 0 exactly when the agent came online, a non-empty results file came back, and none of its rows failed. |
| RunTests.MainAsWrittenRaises | serial/run_tests.py:127 | As written, `main` always raises `TypeError` at `ag.start(...)`. |
| SerProtoTest.ScanLines | serial/test_serproto.py:73-78 | The scan never grows the buffer. |
| SerProtoTest.ScanLinesSplit | serial/test_serproto.py:73-78 | READY is found exactly when a complete line holds it. Then everything up to and including the first such line is consumed and the rest is kept whole. Otherwise only the unfinished line remains. |
| SerProtoTest.WaitStepFails | serial/test_serproto.py:65-72 | A round raises exactly when the fill did not append. A timeout gives `TimeoutError` and a closed peer gives `ConnectionError`. |
| SerProtoTest.ReadyInOneChunk | serial/test_serproto.py:69-78 | A READY line completed by one chunk ends the wait, and the bytes after its newline stay buffered. |
| SerProtoTest.Reader.constructor | serial/test_serproto.py:50-52 | The reader starts with an empty buffer. |
| SerProtoTest.Reader.Fill | serial/test_serproto.py:54-59 | One receive of at most 256 bytes, appended to the buffer. An empty chunk means the peer closed and a timeout is passed on. |
| SerProtoTest.Reader.ScanBuffered | serial/test_serproto.py:73-78 | The inner line loop computes the scan of the buffer. |
| SerProtoTest.Reader.WaitForReady | serial/test_serproto.py:61-78 | The receives run round by round until the first decisive one. The outcome is READY with what followed its line kept, or `TimeoutError` when the budget or a receive timed out, or `ConnectionError`. |
| SerProtoTest.Reader.ReadEotResponses | serial/test_serproto.py:80-104 | Success gives exactly `count` EOT-free responses. Framed in order, they are the front of what was buffered and received, and the bytes after the last EOT stay buffered. A deadline raises `TimeoutError` naming how many came, and a closed peer raises `ConnectionError`. |
| SerProtoTest.Reader.CollectResponses | serial/test_serproto.py:85-103 | The loop stops with `count` responses, the budget spent, a receive timeout or a closed peer; the loop state holds at every stop. |
| SerProtoTest.Reader.TakeBuffered | serial/test_serproto.py:90-97 | A response comes off the buffer exactly when it holds an EOT, and it is framed behind the earlier ones. |
| SerProtoTest.Reader.GatherAndFill | serial/test_serproto.py:98-103 | An EOT-free buffer moves into `current` whole, and then one receive lands behind it: partial data is not lost. |
| SerProtoTest.GatheredSettled | serial/test_serproto.py:85-104 | Wherever the loop stops, the responses are EOT-free and framed at the front of everything read. With nothing pending, the buffer is exactly the rest. |
| SerProtoTest.TakeStep | serial/test_serproto.py:90-96 | The gathered bytes and the buffer up to its first EOT become one framed response. |
| SerProtoTest.FillStep | serial/test_serproto.py:98-99 | A buffer without EOT joins `current` with no byte lost. |
| SerProtoTest.GatheredFill | serial/test_serproto.py:98-101 | A received chunk lands in the buffer behind everything gathered. |
| SerProtoTest.TxCheck | serial/test_serproto.py:113-119 | Passes exactly when every response that has a partner in `zip` equals the expected one. |
| SerProtoTest.TxCheckExact | serial/test_serproto.py:32 | With three responses, the check passes exactly when they are `[b'hello', b'OK', b'ERR:oops']`. |
| SerProtoTest.RunTxTests | serial/test_serproto.py:107-119 | The receives of the READY wait and then of the response read, in order, are those of the socket and its trace. A wait that is spent, times out or sees the peer close passes on its error and reads nothing more. After READY, the responses are the EOT-free frames at the front of the leftover buffer followed by the later receives. On success there are three and the check passes exactly when they are the expected ones; otherwise fewer came, with `read_eot_responses`' timeout or closed-peer error. |
| EotFrames.SplitAtEotParts | serial/verify_serrepl.py:34-36 | The cut drops exactly the first EOT: response, EOT and rest make up the buffer. None comes only when there is no EOT, and then the buffer is kept whole. |
| EotFrames.SplitAtFirstEot | serial/verify_serrepl.py:34-36 | An EOT-free response followed by EOT is cut off whole, whatever follows. |
| EotFrames.FramedUnique | serial/verify_serrepl.py:5-8 | The wire format is unambiguous: equally many EOT-free responses followed by anything are fixed by the bytes. |
| SerReplTest.ReadEot | serial/verify_serrepl.py:28-45 | The buffer is checked before every receive. The result is the cut at the first EOT of the leftover and all received bytes: `(None, buf)` with everything kept once the budget is spent. |
| SerReplTest.ReadEotBuffered | serial/verify_serrepl.py:30-36 | A response already in the leftover is returned without a single receive. |
| SerReplTest.WaitReplReady | serial/verify_serrepl.py:53-69 | Ready exactly when the received bytes contain `REPL_READY`. The leftover is then what follows its first occurrence. |
| SerReplTest.ReadyFound | serial/verify_serrepl.py:57-64 | The wait stops at the chunk that completes `REPL_READY`, and the leftover follows the first occurrence. |
| SerReplTest.ReadyTimedOut | serial/verify_serrepl.py:55-69 | A spent budget without the marker means no marker was received. |
| SerReplTest.TakeResponses | serial/verify_serrepl.py:79 | `n` reads in a row give `n` results. |
| SerReplTest.ThreadedResponses | serial/verify_serrepl.py:76-79 | Threading the leftover: when one frame per command has arrived, the reads return those responses in order, one each, and leave exactly the bytes after the last frame. |
| SerReplTest.Session.constructor | serial/verify_serrepl.py:71-72 | Both counters start at 0. |
| SerReplTest.Session.Test | serial/verify_serrepl.py:75-90 | Sends `cmd` and a newline, reads one response starting from the leftover, and keeps what followed it. It counts a pass exactly when the response equals the expected bytes and a fail otherwise, timeout included. |
| Sockets.Deliver | serial/temple.py:97 | One `recv(max)` returns at most `max` bytes. |
| Sockets.DeliverKeepsStream | serial/temple.py:97 | A receive neither loses, duplicates nor reorders bytes. |
| Sockets.ReceiveKeepsStream | serial/temple.py:95-104 | The bytes of any number of receives, followed by what is still queued, are the peer's stream. |
| Sockets.Socket.Recv | serial/test_serproto.py:56 | The event delivered from the script is recorded in the trace. |
| Sockets.Socket.SendAll | serial/temple.py:115 | The bytes sent are recorded in the trace and nothing is received. |
| Sockets.RecvAppend | serial/verify_serrepl.py:41-43 | One pass of a receive loop: the chunk is appended only when it is not empty. |
| Sockets.ReadUntilStopsOnce | serial/verify_serrepl.py:33-45 | A read-until loop stops at one place only. |
| Sockets.ReadUntilBuffered | serial/verify_serrepl.py:34-36 | A buffer that already holds the marker is returned without a receive. |
| Text.SplitLinesSpells | serial/run_tests.py:85 | `splitlines` loses only line boundaries: the lines, in order, spell the text without them. |
| Text.ParseShow | serial/agent.py:184 | `int()` reads back what `str()` writes in decimal, and what `%X` writes in hexadecimal. |
| Utf8.DecodeEncode | serial/agent.py:166 | Decoding what was encoded gives the text back. |

## Left out

- Real sockets, `settimeout`, `time.time()` and `time.sleep`. A socket is a script of
  `recv` outcomes plus a trace. A deadline is a budget of receive attempts, which bounds
  the number of receives and not the time they take (see "How the model is built"). A sleep
  is a no-op.
- `_sendkey`, `_qmon`, and `freeze`/`recover`/`unfreeze` in `serial/temple.py`. They are
  keystroke and QEMU-monitor side effects in external processes.
- `mkdir`, `run_hc` and `mem_info` in `serial/temple.py`. They are not core: each is a
  plain `send_cmd`, or a composition of modelled calls.
- `Temple.__enter__`/`__exit__`. `connect` takes an already opened socket, because opening
  a Unix socket is I/O.
- The `http.server` plumbing, the header writes and `start_background`'s thread. Each
  request is one call of a handler method on the bridge.
- The guest's concurrent polling. It is given as a schedule of requests served while the
  host waits.
- AgentServer.Bridge.GetResult: does not model `get_result`'s blocking timeout. What the
  guest posts during the wait is in the schedule, and on an empty FIFO the call gives None
  at once.
- `eval_f64` and `uptime`, because they parse floating-point text.
- `eval_str`, `define`, `read_mem64` and `read_mem_bytes`. They are `run` with other format
  strings.
- The agent's file pass-throughs (`read_file`, `write_file`, `list_dir`, `mkdir`,
  `read_debug_log`), `restart` and `__enter__`/`__exit__`.
- `_deploy` and `_server_alive`, which involve file reads, `fuser` and socket probes.
- AgentLifecycle.Agent.Start: it does not model killing and restarting the HTTP server,
  `loadvm` or `_deploy`. It does model the flush, the new serial client, the wait and the
  `live` flag.
- AgentLifecycle.Agent.Stop: the 10-second sleep is a no-op.
- AgentLifecycle.EvalReadsBack: states the hexadecimal round trip only for non-negative
  numbers, because `%X` of a negative number is the guest's format and not part of this
  model.
- TempleProtocol.Temple.ExecStr: does not model the `ConnectionResetError`/`OSError` that
  becomes `TempleException('crash')`, because socket errors are not part of the socket
  model.
- TempleProtocol.Temple.IsFrozen: does not model the `except Exception` that turns a socket
  error into False, for the same reason. The one exception it does model is a client with no
  socket (`s` is None), which gives False with no I/O.
- TempleProtocol.Temple.ExecKv: the result is a `map`, so the insertion order of the Python
  dict that `exec_kv` returns is not kept. Which value each key holds is modelled.
- Text.ParseInt: accepts only ASCII digits. Python's `int()` also accepts other Unicode
  decimal digits; the guest's replies are ASCII.
- `print_results`' per-row printing, and every other `print`; only the counters and the
  summary text are modelled.
- In `serial/run_tests.py`, `make_pre_deploy` and the TestRunner run in `main`. They are
  guest-side file deployment.
- In `serial/test_serproto.py`, `run_rx_test`, `connect` and `main` are left out. Their
  outcome depends on the guest, and they reuse the modelled reader.
- In `serial/verify_serrepl.py`, the top-level script around `test` is left out: the four
  fixed calls, the final `EXIT` line and the exit code.
- The semantics of the guest language.

## Findings

| source | as written | input that shows it | evidently intended | confidence | as-written member | corrected member |
|---|---|---|---|---|---|---|
| serial/run_tests.py:127 | `main` calls `ag.start(timeout=60, pre_deploy=make_pre_deploy())`, but `Agent.start` (`serial/agent.py:91`) takes only `timeout`, so the call raises `TypeError` before anything starts | any run of the script | start the agent (deploying the tests first) and exit 0 exactly when no row failed | not executed | RunTests.MainAsWrittenRaises | RunTests.MainExitZero |
