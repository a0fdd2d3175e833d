# Message-passing REPL: a Dafny model

This project models the core of the `beginners-guide-msg-passing` REPL.
The program is three threads joined by two bounded channels:

- the **input thread** reads lines, trims them, and sends `Quit` for
  `quit` and `UserInput` for anything else;
- the **main thread** (the coordinator) prints results, forwards input to
  the worker as `DoWork`, and on `Quit` tells the worker to quit, joins it
  and exits;
- the **worker thread** parses each command with `Work::try_from`
  (`add <u32> <u32>`, `ping`, `help`, `?`), keeps a private ping counter,
  and sends one result back per command.

The model keeps each piece in the form the source gives it:

- `Text`: the standard-library behaviour the REPL relies on.
  - `split_ascii_whitespace`.
  - `trim`.
  - `parse::<u32>` with its three error kinds and their texts.
  - Decimal rendering.
- `Messages`: the three message enums.
- `Command`: the checkpoint crate's `Work::try_from`, as a pure function.
- `Chapter1`: the chapter-1 crate's `Work::try_from`, with `String`
  errors.
- `WorkerThread`:
  - a `Worker` class whose `pings` field the methods update in place;
  - `Handle` (one loop body) and `Run` (the loop), proved against the
    specification functions `Step` and `Serve`.
- `InputThread`: the line classifier and one turn of the input loop.
- `MainThread`: the coordinator's dispatch of one received message, and
  whether its loop goes on or breaks out.
- `Session`: a sequential driver standing in for the threads and channels.
  - `RunSession` is imperative. It uses one `Worker` object and makes one
    full round trip per line read (input → main → worker → main).
  - It is proved equal to the reference function `Play`.
  - End-to-end lemmas relate `Play` to the thread-free reference `Replies`.

Arithmetic on `u32` follows a debug build: an `add` whose sum does not fit
in 32 bits, or a ping count that would overflow, panics the worker thread.
The model writes this out explicitly.

Where the code and its documentation disagree, the model follows the code:

- **Trimming.** The input thread trims whitespace at **both** ends
  (`str::trim`, Unicode White_Space), not only trailing whitespace.
- **End of input.** At end of input `read_line` succeeds with zero bytes,
  so the loop keeps sending empty `UserInput` and does not stop. The model
  represents end of input as `Line("")`; `InputThread.EndOfInputRepeats`
  states this.
- **Read errors.** A failed read ends only the input thread, which drops
  its sender. While the worker is alive it still holds a clone of main's
  sender, so main never sees a receive failure: main and the worker both
  keep waiting (`Session.ReadFailureStalls`). Once the worker has
  panicked, its clone is gone too: the failed read drops the last sender,
  main's receive fails and main exits (`Session.WorkerGoneEnds`).
- **chapter-1 errors.** The chapter-1 `try_from` uses `anyhow::bail!` in a
  function whose error type is `String`. The model reads it as returning
  the formatted message as the error.

## Model

| member | source | states |
|---|---|---|
| Text.SplitAsciiWhitespace | crates/checkpoint/main.rs:30 | there are never more tokens than characters |
| Text.SplitNothing | crates/checkpoint/main.rs:30 | a string yields no token exactly when it is all ASCII whitespace |
| Text.SplitYieldsWords | crates/checkpoint/main.rs:30 | every token of `split_ascii_whitespace` is non-empty and contains no ASCII whitespace |
| Text.SplitJoin | crates/checkpoint/main.rs:30 | splitting the words joined by single spaces gives back exactly those words (join is a right inverse of split) |
| Text.SplitDropsLeading | crates/checkpoint/main.rs:30 | leading ASCII whitespace produces no token |
| Text.SplitDropsTrailing | crates/checkpoint/main.rs:30 | trailing ASCII whitespace produces no token |
| Text.SplitCollapsesSeparators | crates/checkpoint/main.rs:30 | any non-empty run of ASCII whitespace splits the same as one space |
| Text.Trim | crates/checkpoint/main.rs:115 | the trimmed line is never longer than the line |
| Text.TrimNothing | crates/checkpoint/main.rs:115 | `trim` leaves nothing exactly when the line is all whitespace |
| Text.TrimShape | crates/checkpoint/main.rs:115 | `trim` returns a contiguous piece of the line with only whitespace before and after it |
| Text.TrimEnds | crates/checkpoint/main.rs:115 | what `trim` returns is empty or has no whitespace at either end |
| Text.TrimPadded | crates/checkpoint/main.rs:115 | trimming whitespace-padded text whose ends are not whitespace gives back exactly that text |
| Text.TrimIdempotent | crates/checkpoint/main.rs:115 | trimming twice equals trimming once |
| Text.NatToString | crates/checkpoint/main.rs:55 | the rendering of `n` is non-empty and all digits, has no leading zero unless `n` is 0, and reads back as `n` |
| Text.NatToStringInjective | crates/checkpoint/main.rs:55 | different numbers render differently |
| Text.AccumulateDigits | crates/checkpoint/main.rs:33-34 | the digit loop succeeds exactly on all-digit text whose value fits in 32 bits, returns that value, reports `PosOverflow` for all-digit text whose value does not fit, and never reports `Empty` |
| Text.ParseU32 | crates/checkpoint/main.rs:33-34 | `parse::<u32>` succeeds exactly on an optional `+` followed by digits whose value fits, returns that value; it reports `Empty` exactly for the empty string, `PosOverflow` for digits whose value does not fit, and `InvalidDigit` for a bare sign and for anything starting with `-` |
| Text.ParseRendered | crates/checkpoint/main.rs:33-34 | a rendered u32, with or without a leading `+`, parses back to the same number |
| Command.MalformedMessage | crates/checkpoint/main.rs:40 | the `bail!` message contains the whole input string |
| Command.TryFrom | crates/checkpoint/main.rs:26-43 | a `Malformed` error carries exactly the input it rejected |
| Command.AddExactly | crates/checkpoint/main.rs:32-35 | `Ok(Add(a, b))` if and only if the tokens are `add` and two u32 literals of values `a` and `b` |
| Command.PingExactly | crates/checkpoint/main.rs:37 | `Ok(Ping)` if and only if the tokens are exactly `["ping"]` |
| Command.HelpExactly | crates/checkpoint/main.rs:38-39 | `Ok(Help)` if and only if the tokens are `["help"]` or `["?"]` |
| Command.MalformedExactly | crates/checkpoint/main.rs:40 | `Malformed(input)` if and only if the tokens fit no rule; the error text then contains the input |
| Command.BadNumberExactly | crates/checkpoint/main.rs:33-34 | a number error arises only for the three-token `add` shape, with the error kind of the first operand that fails to parse |
| Command.RenderRoundTrip | crates/checkpoint/main.rs:26-43 | every `Work` value has a command string that parses back to it |
| Command.SameWordsSameVerdict | crates/checkpoint/main.rs:30-31 | two inputs with the same tokens get the same result, up to the input quoted in a `Malformed` error |
| Command.WhitespaceInsensitive | crates/checkpoint/main.rs:30 | leading, trailing and repeated ASCII whitespace around and between two pieces does not change the result |
| Chapter1.TryFrom | crates/chapter-1/src/main.rs:22-35 | every error message is non-empty |
| Chapter1.AgreesWithCheckpoint | crates/chapter-1/src/main.rs:21-36 | the chapter-1 parser accepts exactly what the checkpoint parser accepts, with the same `Work`; its error string is the text of the checkpoint parser's error |
| Chapter1.AddCases | crates/chapter-1/src/main.rs:25-29 | for the `add` shape: `Add` of both values when both operands parse, otherwise the parse error text of the first operand that fails |
| Chapter1.OtherCases | crates/chapter-1/src/main.rs:30-33 | outside the `add` shape: `Ping` if and only if `["ping"]`, `Help` if and only if `["help"]` or `["?"]`, and any error quotes the input |
| WorkerThread.Deliver | crates/checkpoint/main.rs:82-85 | a send delivers the given result exactly when main still receives, and otherwise fails with that result |
| WorkerThread.Step | crates/checkpoint/main.rs:52-85 | a turn stops silently exactly on `Quit`; the count moves on by at most one, and not on a turn that panics |
| WorkerThread.StepPanics | crates/checkpoint/main.rs:53-58 | a turn panics exactly on a `DoWork` whose command overflows u32 arithmetic, and the count is then unchanged |
| WorkerThread.Reply | crates/checkpoint/main.rs:53-74 | every reply is non-empty; the reply to `add a b` is all digits and reads as `a + b`; the reply to an unparsable command is the fixed prefix followed by the error's text |
| WorkerThread.StepReplies | crates/checkpoint/main.rs:53-75 | without overflow, a `DoWork` is answered with the command's reply at the new count, and the count stays a u32 |
| WorkerThread.Worker.Handle | crates/checkpoint/main.rs:52-80 | one loop body changes `pings` and returns the outcome exactly as `Step` prescribes |
| WorkerThread.Worker.Run | crates/checkpoint/main.rs:46-98 | the worker loop sends exactly the results, stops for exactly the reason, and leaves exactly the count that `Serve` prescribes |
| WorkerThread.ServeTurnSent | crates/checkpoint/main.rs:49-86 | an iteration whose send succeeds appends its result and continues on the rest of the inbox with one send fewer before main's receiver is dropped |
| WorkerThread.ServeTurnStops | crates/checkpoint/main.rs:49-95 | an iteration that sends nothing (failed send, `Quit` or panic) ends the loop with the matching exit and the results sent so far |
| WorkerThread.DoWorkAnswersOnce | crates/checkpoint/main.rs:52-85 | a `DoWork` that does not overflow produces exactly one send, which succeeds exactly when main still receives |
| WorkerThread.QuitIsSilent | crates/checkpoint/main.rs:76-79 | `Quit` ends the loop with nothing sent and the count unchanged |
| WorkerThread.AddReportsSum | crates/checkpoint/main.rs:54-56 | `add a b` reports the decimal sum, which parses back to `a + b`, exactly when the sum fits; otherwise the worker panics; the count is unchanged |
| WorkerThread.PingCounts | crates/checkpoint/main.rs:57-67 | `ping` raises the count by exactly one and reports the new count |
| WorkerThread.OnlyPingCounts | crates/checkpoint/main.rs:52-80 | every message other than a ping leaves the count unchanged |
| WorkerThread.StepCounts | crates/checkpoint/main.rs:57-58 | a turn that does not panic moves the count by the number of pings in its message |
| WorkerThread.PingTextWords | crates/checkpoint/main.rs:59-66 | the ping report is its five words joined by single spaces |
| WorkerThread.PingTextReadsBack | crates/checkpoint/main.rs:59-66 | the ping report splits into `ping'd worker thread <n> time(s)`: the number parses back to the count, and the word is `time` exactly for a count of 1 |
| WorkerThread.HelpIsFixed | crates/checkpoint/main.rs:68-70 | `help` and `?` both get the fixed help text, and the count is unchanged |
| WorkerThread.FailureIsReported | crates/checkpoint/main.rs:71-74 | an unparsable command is reported as a result, not as a stop; a malformed one quotes the input; the count is unchanged |
| WorkerThread.ServeAnswersEach | crates/checkpoint/main.rs:49-95 | every answered message was a `DoWork`, in order; the loop runs to the end of the inbox exactly when it answered every message; it stops at a `Quit` without answering it; a send fails only once `accepts` sends have succeeded and main's receiver is dropped |
| WorkerThread.ServeRepliesAt | crates/checkpoint/main.rs:49-85 | the `k`-th result sent is the reply to the `k`-th message, a `DoWork`, at the count reached by the pings among the first `k + 1` messages |
| WorkerThread.ServePanicsOnOverflow | crates/checkpoint/main.rs:49-67 | the loop panics only on a `DoWork` right after the answered messages, whose command overflows at the count those messages reached; the count stays there |
| WorkerThread.ServeCountsPings | crates/checkpoint/main.rs:48-67 | the final count is the initial count plus the pings among the messages handled, including the one the loop stopped on |
| InputThread.Classify | crates/checkpoint/main.rs:115-124 | a line becomes `Quit` exactly when its trimmed text is `quit`, and is never a `WorkResult` |
| InputThread.InputTurn | crates/checkpoint/main.rs:108-130 | the loop continues exactly after a non-`quit` line was sent successfully; it sends exactly when a line was read and main receives; what it sends is the classified line |
| InputThread.QuitWithPadding | crates/checkpoint/main.rs:115-120 | `quit` with any whitespace around it sends `Quit` (if main receives) and ends the loop |
| InputThread.QuitOnlyWithPadding | crates/checkpoint/main.rs:115-120 | only such a line is classified `Quit`: the line is `quit` with whitespace before and after |
| InputThread.OtherLinesForwarded | crates/checkpoint/main.rs:115-123 | every other line is forwarded as its trimmed text, and classifying that text again gives the same message |
| InputThread.EndOfInputRepeats | crates/checkpoint/main.rs:109-123 | at end of input (`read_line` returns zero bytes) the loop sends empty input and goes on |
| MainThread.Dispatch | crates/checkpoint/main.rs:147-174 | main prints only on a turn after which its loop goes on; it joins the worker only on a turn that sends `Quit` and breaks out |
| MainThread.DispatchRoutes | crates/checkpoint/main.rs:147-174 | input goes to the worker unchanged as `DoWork`; results are printed and nothing is forwarded; `Quit` sends one `Quit`, joins the worker and stops; main keeps running exactly on a result, or on input whose forward succeeds |
| Session.Play | crates/checkpoint/main.rs:135-178 | a session ends with the worker alive only by stalling on a failed read; ending by `quit`, by a failed forward or by main's failed receive leaves the worker gone; a worker that is gone never comes back |
| Session.ServeLine | crates/checkpoint/main.rs:108-174 | one line's round trip with the worker object matches one step of `Play`: either the session ends there with the printed results (a failed read stalls while the worker is alive and makes main's receive fail once it is gone), or it continues from the updated count and liveness |
| Session.RunSession | crates/checkpoint/main.rs:135-178 | the lines printed and the way the session ends are those of `Play` from a fresh worker |
| Session.RepliesAt | crates/checkpoint/main.rs:57-67 | the `k`-th reference reply is the result of the `k`-th command, with pings counted over the lines up to and including it |
| Session.PlayOrdinaryCons | crates/checkpoint/main.rs:150-156 | an ordinary line prints exactly its reply and the session continues on the rest |
| Session.PlayQuitCons | crates/checkpoint/main.rs:157-166 | a `quit` line ends the session with the worker told to quit and nothing printed |
| Session.PlayReadFailedCons | crates/checkpoint/main.rs:110-113 | a failed read ends the session with nothing printed: it stalls while the worker is alive, and main's receive fails and main exits once the worker is gone |
| Session.PlayAppend | crates/checkpoint/main.rs:147-174 | a run of ordinary lines prints their reference replies in order, then continues with the count moved on by their pings |
| Session.EveryLineAnswered | crates/checkpoint/main.rs:147-156 | on ordinary lines the session prints exactly one reply per line, in order; the worker stays alive; its count is the number of ping lines |
| Session.QuitEndsSession | crates/checkpoint/main.rs:157-166 | after ordinary lines, `quit` ends the session; nothing after it is read, and the printed results are exactly those of the earlier lines |
| Session.ReadFailureStalls | crates/checkpoint/main.rs:110-113 | after ordinary lines, a failed read stops progress; the earlier replies are printed and the worker stays alive |
| Session.OverflowKillsWorker | crates/checkpoint/main.rs:54-56 | an overflowing `add` prints nothing and kills the worker; the session goes on with the count unchanged |
| Session.WorkerGoneEnds | crates/checkpoint/main.rs:147-171 | with the worker gone, the next read ends the session with nothing printed: `quit` ends it as usual, another line makes main's forward fail, a failed read makes main's receive fail |
| Session.OverflowEndsSession | crates/checkpoint/main.rs:54-56 | an overflowing `add` prints nothing, and the read after it ends the session with main exiting |

## Left out

- Threads and channels. The `Session` driver fixes one schedule: each line
  completes its round trip before the next is read. Other interleavings of
  the three threads are not modelled. Neither is the blocking of the
  capacity-1 `sync_channel`s.
- Console output. The `println!`/`eprintln!` log lines, the welcome banner
  and the half-second start-up `sleep` are not modelled. Only the results
  main prints are kept.
- Reading stdin. It is modelled as a parameter: a sequence of read
  results, where a failed read (for example, invalid UTF-8) is
  `ReadFailed`.
- Release builds. `u32` wrap-around in a release build is not modelled:
  `a + b` and `pings += 1` are modelled as a debug build runs them, where
  overflow panics the worker.
- Joining the worker. The result of `worker_handle.join()` is only logged
  in the source. The model records that main joins and nothing more.
- WorkerThread.Worker.Run: the point at which main stops receiving is a parameter
  (`accepts`, how many sends succeed before main's receiver is dropped),
  because main's lifetime
  depends on the other threads.
- Session.RunSession: returns what main printed and how the session
  ended. The final ping count and the worker's liveness are stated on
  `Play` and not returned.
- Out of scope: the chapter-1 crate's `main` (prints a greeting) and the
  `xtask` crate. Neither is part of this model.
