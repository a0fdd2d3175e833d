/**
  A sequential driver that stands in for the three threads and their two
  channels.  It fixes one schedule, the one of interactive use: each line
  read makes its whole round trip (input thread -> main -> worker -> main)
  before the next line is read, so every channel holds at most one message
  at a time.  Nothing here speaks of any other interleaving.
*/
module Session {
  import opened Wrappers
  import opened Text
  import opened Messages
  import Command
  import opened WorkerThread
  import opened InputThread
  import opened MainThread

  /** How a session ends. */
  datatype Ending =
    | Quitted      // `quit` was read: the worker got `Quit`, main joined it and exited
    | InputFailed     // a read failed while the worker was alive: the input thread
                      // exited, but main and the worker still hold each other's
                      // senders, so both wait for ever
    | MainRecvFailed  // a read failed after the worker was gone: no sender of main's
                      // channel is left, main's receive fails and main exits
    | MainExited   // the worker was gone (after a panic), so main's forward failed
    | Ongoing      // the lines given ran out; the session goes on

  /** The results main printed, how the session ended, and the worker's
      count and liveness at that point. */
  datatype Transcript = Transcript(printed: seq<string>, ending: Ending, pings: U32, workerAlive: bool)

  function OptionToSeq(o: Option<string>): seq<string> {
    if o.Some? then [o.value] else []
  }

  function Prefix(printed: seq<string>, t: Transcript): Transcript {
    Transcript(printed + t.printed, t.ending, t.pings, t.workerAlive)
  }

  /** The session on the given feed of reads, from the worker's count and
      liveness before them: the input thread's turn on the first read, then
      main's turn on what it sent. */
  function Play(feed: seq<ReadResult>, pings: U32, workerAlive: bool): (t: Transcript)
    ensures !workerAlive ==> !t.workerAlive
    ensures t.ending.InputFailed? ==> t.workerAlive
    ensures t.ending.Quitted? || t.ending.MainExited? || t.ending.MainRecvFailed? ==> !t.workerAlive
    decreases |feed|, 0
  {
    if feed == [] then Transcript([], Ongoing, pings, workerAlive)
    else
      var turn := InputTurn(feed[0], true);
      if turn.sent.None? then
        // the input thread has exited and dropped its sender
        if workerAlive then Transcript([], InputFailed, pings, true)
        // and the worker's went with it: main's receive fails and main stops
        else Transcript([], MainRecvFailed, pings, false)
      else MainTakes(turn.sent.value, feed[1..], pings, workerAlive)
  }

  /** Main's turn on a message from the input thread, then the worker's
      turn on what main forwarded. */
  function MainTakes(m: MainMsg, rest: seq<ReadResult>, pings: U32, workerAlive: bool): (t: Transcript)
    ensures !workerAlive ==> !t.workerAlive
    ensures t.ending.InputFailed? ==> t.workerAlive
    ensures t.ending.Quitted? || t.ending.MainExited? || t.ending.MainRecvFailed? ==> !t.workerAlive
    decreases |rest|, 2
  {
    var react := Dispatch(Got(m), workerAlive);
    if react.next == Stopped then Transcript([], if m.Quit? then Quitted else MainExited, pings, false)
    else if react.forward.None? then Prefix(OptionToSeq(react.printed), Play(rest, pings, workerAlive))
    else WorkerTakes(react.forward.value, rest, pings)
  }

  /** The worker's turn on what main forwarded (main still receives), main's
      turn on the result, then the rest of the session. */
  function WorkerTakes(msg: WorkerMsg, rest: seq<ReadResult>, pings: U32): (t: Transcript)
    ensures t.ending.InputFailed? ==> t.workerAlive
    ensures t.ending.Quitted? || t.ending.MainExited? || t.ending.MainRecvFailed? ==> !t.workerAlive
    decreases |rest|, 1
  {
    var (o, p) := Step(pings, msg, true);
    if o.Sent? then
      Prefix(OptionToSeq(Dispatch(Got(WorkResult(o.result)), true).printed), Play(rest, p, true))
    else
      // the worker panicked; main goes on until its next forward fails
      Play(rest, p, false)
  }

  /** One line's round trip with the worker object: what main printed, how
      the session ended if it did, and whether the worker is still alive.
      `rest` stands for the reads after this one. */
  method ServeLine(worker: Worker, read: ReadResult, workerAlive: bool, ghost rest: seq<ReadResult>)
    returns (printed: seq<string>, ending: Option<Ending>, aliveAfter: bool)
    modifies worker
    ensures Play([read] + rest, old(worker.pings), workerAlive) ==
      if ending.Some? then Transcript(printed, ending.value, worker.pings, aliveAfter)
      else Prefix(printed, Play(rest, worker.pings, aliveAfter))
  {
    assert ([read] + rest)[0] == read && ([read] + rest)[1..] == rest;
    var turn := InputTurn(read, true);
    if turn.sent.None? {
      if workerAlive {
        return [], Some(InputFailed), true;
      }
      // the worker's sender went with it: main's receive fails
      var react := Dispatch(Received.RecvFailed, false);
      assert react == Reaction(None, None, false, Stopped);
      return [], Some(MainRecvFailed), false;
    }
    var msg := turn.sent.value;
    var react := Dispatch(Got(msg), workerAlive);
    if react.next == Stopped {
      if workerAlive && react.forward == Some(WorkerMsg.Quit) {
        var last := worker.Handle(WorkerMsg.Quit, true);
      }
      return [], Some(if msg.Quit? then Quitted else MainExited), false;
    }
    ghost var before := worker.pings;
    var outcome := worker.Handle(react.forward.value, true);
    assert MainTakes(msg, rest, before, workerAlive) == WorkerTakes(react.forward.value, rest, before);
    if outcome.Sent? {
      var back := Dispatch(Got(WorkResult(outcome.result)), true);
      return OptionToSeq(back.printed), None, true;
    }
    return [], None, false;
  }

  /** Runs the session: one worker object, one round trip per line read,
      until a thread stops or the feed runs out. */
  method RunSession(feed: seq<ReadResult>) returns (printed: seq<string>, ending: Ending)
    ensures printed == Play(feed, 0, true).printed
    ensures ending == Play(feed, 0, true).ending
  {
    var worker := new Worker();
    var workerAlive := true;
    printed := [];
    var i := 0;
    while i < |feed|
      invariant i <= |feed|
      invariant Play(feed, 0, true) == Prefix(printed, Play(feed[i..], worker.pings, workerAlive))
    {
      assert feed[i..] == [feed[i]] + feed[i + 1..];
      var out, stop, alive := ServeLine(worker, feed[i], workerAlive, feed[i + 1..]);
      if stop.Some? {
        printed := printed + out;
        ending := stop.value;
        return;
      }
      PrefixTwice(printed, out, Play(feed[i + 1..], worker.pings, alive));
      printed := printed + out;
      workerAlive := alive;
      i := i + 1;
    }
    ending := Ongoing;
    assert printed + [] == printed;
  }

  // -----------------------------------------------------------------------
  // End-to-end properties
  // -----------------------------------------------------------------------

  /** The command a read hands on: its trimmed text. */
  function CommandOf(r: ReadResult): string {
    if r.Line? then Trim(r.text) else []
  }

  /** A line the session answers in the ordinary way: it was read, it is
      not `quit`, and it is not an `add` whose sum leaves the u32 range. */
  predicate Ordinary(r: ReadResult) {
    && r.Line?
    && Trim(r.text) != "quit"
    && match Command.TryFrom(Trim(r.text))
       case Ok(Add(a, b)) => a + b < U32_LIMIT
       case _ => true
  }

  /** Every line of `feed` is ordinary. */
  predicate AllOrdinary(feed: seq<ReadResult>)
    decreases |feed|, 0
  {
    feed == [] || OrdinaryThen(feed[0], feed[1..])
  }

  predicate OrdinaryThen(line: ReadResult, rest: seq<ReadResult>)
    decreases |rest|, 1
  {
    Ordinary(line) && AllOrdinary(rest)
  }

  predicate IsPingLine(r: ReadResult) {
    r.Line? && Command.TryFrom(Trim(r.text)) == Ok(Ping)
  }

  /** The worker's count after `line`, from `pings` before it. */
  function CountAfter(line: ReadResult, pings: nat): nat {
    pings + (if IsPingLine(line) then 1 else 0)
  }

  /** The number of `ping` lines among `feed`. */
  function PingLines(feed: seq<ReadResult>): nat
    decreases |feed|, 0
  {
    if feed == [] then 0 else PingsThen(feed[0], feed[1..])
  }

  function PingsThen(line: ReadResult, rest: seq<ReadResult>): nat
    decreases |rest|, 1
  {
    (if IsPingLine(line) then 1 else 0) + PingLines(rest)
  }

  /** The results of the lines of `feed`, one each, after `pings` pings:
      a reference for the session that has no threads and no channels. */
  function Replies(feed: seq<ReadResult>, pings: nat): (replies: seq<string>)
    ensures |replies| == |feed|
    decreases |feed|, 0
  {
    if feed == [] then [] else ReplyThen(feed[0], feed[1..], pings)
  }

  /** The result of `line`, then those of `rest`. */
  function ReplyThen(line: ReadResult, rest: seq<ReadResult>, pings: nat): (replies: seq<string>)
    ensures |replies| == 1 + |rest|
    decreases |rest|, 1
  {
    var count := CountAfter(line, pings);
    [Reply(CommandOf(line), count)] + Replies(rest, count)
  }

  /** The `k`-th reply is the result of the `k`-th command, with the pings
      counted over the lines up to and including it. */
  lemma RepliesAt(feed: seq<ReadResult>, pings: nat, k: nat)
    requires k < |feed|
    ensures Replies(feed, pings)[k] == Reply(CommandOf(feed[k]), pings + PingLines(feed[..k + 1]))
  {
    RepliesAtCount(feed, pings, k, pings + PingLines(feed[..k + 1]));
  }

  /** `RepliesAt` with the count up to line `k` given as `last`. */
  lemma {:induction false} RepliesAtCount(feed: seq<ReadResult>, pings: nat, k: nat, last: nat)
    requires k < |feed|
    requires last == pings + PingLines(feed[..k + 1])
    ensures Replies(feed, pings)[k] == Reply(CommandOf(feed[k]), last)
    decreases k
  {
    var count := CountAfter(feed[0], pings);
    var head := feed[..k + 1];
    RepliesCons(feed, pings);
    PingLinesCons(head, pings);
    if k > 0 {
      TakeShift(feed, k);
      RepliesAtCount(feed[1..], count, k - 1, last);
      ConsIndex(Reply(CommandOf(feed[0]), count), Replies(feed[1..], count), k);
    } else {
      assert head[0] == feed[0] && head[1..] == [];
    }
  }

  /** Counting pings one line at a time. */
  lemma PingLinesCons(feed: seq<ReadResult>, pings: nat)
    requires feed != []
    ensures pings + PingLines(feed) == CountAfter(feed[0], pings) + PingLines(feed[1..])
  {
  }

  /** The first `k + 1` elements are the head and the first `k` of the tail. */
  lemma TakeShift<T>(s: seq<T>, k: nat)
    requires 0 < k < |s|
    ensures s[..k + 1][0] == s[0] && s[..k + 1][1..] == s[1..][..k - 1 + 1] && s[1..][k - 1] == s[k]
  {
  }

  /** Indexing past a one-element head. */
  lemma ConsIndex<T>(x: T, ys: seq<T>, k: nat)
    requires 0 < k <= |ys|
    ensures ([x] + ys)[k] == ys[k - 1]
  {
  }

  /** A session whose next line is ordinary prints that line's result and
      goes on with the rest. */
  lemma PlayOrdinaryCons(feed: seq<ReadResult>, pings: U32)
    requires feed != [] && Ordinary(feed[0])
    requires CountAfter(feed[0], pings) < U32_LIMIT
    ensures var count := CountAfter(feed[0], pings);
      Play(feed, pings, true) == Prefix([Reply(CommandOf(feed[0]), count)], Play(feed[1..], count, true))
  {
    var read, rest := feed[0], feed[1..];
    var line := Trim(read.text);
    OtherLinesForwarded(read.text);
    assert InputTurn(read, true) == Turn(Some(UserInput(line)), true);
    assert Dispatch(Got(UserInput(line)), true) == Reaction(None, Some(DoWork(line)), false, Running);
    assert MainTakes(UserInput(line), rest, pings, true) == WorkerTakes(DoWork(line), rest, pings);
    StepReplies(pings, line, true);
    assert WorkerTakes(DoWork(line), rest, pings) == Prefix([Reply(line, NextCount(pings, line))], Play(rest, NextCount(pings, line), true));
  }

  /** A session whose next line is `quit` ends there, with the handshake. */
  lemma PlayQuitCons(q: string, rest: seq<ReadResult>, pings: U32, workerAlive: bool)
    requires Trim(q) == "quit"
    ensures Play([Line(q)] + rest, pings, workerAlive) == Transcript([], Quitted, pings, false)
  {
    assert ([Line(q)] + rest)[0] == Line(q);
  }

  /** A session whose next read fails ends there: it stalls while the
      worker is alive, and main's receive fails once the worker is gone. */
  lemma PlayReadFailedCons(rest: seq<ReadResult>, pings: U32, workerAlive: bool)
    ensures Play([ReadFailed] + rest, pings, workerAlive) ==
      if workerAlive then Transcript([], InputFailed, pings, true)
      else Transcript([], MainRecvFailed, pings, false)
  {
    assert ([ReadFailed] + rest)[0] == ReadFailed;
  }

  /** The reference replies of a non-empty list of lines, one step. */
  lemma RepliesCons(feed: seq<ReadResult>, pings: nat)
    requires feed != []
    ensures Replies(feed, pings) == [Reply(CommandOf(feed[0]), CountAfter(feed[0], pings))]
      + Replies(feed[1..], CountAfter(feed[0], pings))
  {
  }

  /** What the premises of the session lemmas say about the first line and
      the rest. */
  lemma OrdinaryHead(feed: seq<ReadResult>, pings: U32)
    requires feed != [] && AllOrdinary(feed)
    requires pings + PingLines(feed) < U32_LIMIT
    ensures Ordinary(feed[0]) && AllOrdinary(feed[1..])
    ensures pings + PingLines(feed) == CountAfter(feed[0], pings) + PingLines(feed[1..])
    ensures var count := CountAfter(feed[0], pings);
      count < U32_LIMIT && count + PingLines(feed[1..]) < U32_LIMIT
  {
    assert OrdinaryThen(feed[0], feed[1..]);
    assert PingLines(feed) == PingsThen(feed[0], feed[1..]);
  }

  /** Ordinary lines compose: the session on them followed by `rest`
      prints their replies, one each and in order, and then behaves as the
      session on `rest` from the count they leave behind. */
  lemma {:induction false} PlayAppend(pre: seq<ReadResult>, rest: seq<ReadResult>, pings: U32, last: U32)
    requires AllOrdinary(pre)
    requires last == pings + PingLines(pre)
    ensures Play(pre + rest, pings, true) == Prefix(Replies(pre, pings), Play(rest, last, true))
    decreases |pre|
  {
    if pre == [] {
      assert pre + rest == rest;
      PrefixTwice([], [], Play(rest, pings, true));
    } else {
      var count := CountAfter(pre[0], pings);
      OrdinaryHead(pre, pings);
      ConsAppend(pre, rest);
      PlayOrdinaryCons(pre + rest, pings);
      PlayAppend(pre[1..], rest, count, last);
      RepliesCons(pre, pings);
      PrefixTwice([Reply(CommandOf(pre[0]), count)], Replies(pre[1..], count), Play(rest, last, true));
    }
  }

  /** The head and tail of a concatenation with a non-empty front. */
  lemma ConsAppend<T>(pre: seq<T>, rest: seq<T>)
    requires pre != []
    ensures (pre + rest)[0] == pre[0] && (pre + rest)[1..] == pre[1..] + rest
  {
  }

  /** Printing `a` and then `b` before a session is printing `a + b`. */
  lemma PrefixTwice(a: seq<string>, b: seq<string>, t: Transcript)
    ensures Prefix(a, Prefix(b, t)) == Prefix(a + b, t)
    ensures Prefix([], t) == t
  {
    assert a + (b + t.printed) == (a + b) + t.printed;
    assert [] + t.printed == t.printed;
  }

  /** Every ordinary line yields exactly one printed result, in order, the
      one `Replies` gives; the session goes on and the worker's count is
      the number of ping lines. */
  lemma EveryLineAnswered(feed: seq<ReadResult>, pings: U32)
    requires AllOrdinary(feed)
    requires pings + PingLines(feed) < U32_LIMIT
    ensures var t := Play(feed, pings, true);
      && t.ending == Ongoing && t.workerAlive
      && t.printed == Replies(feed, pings)
      && t.pings == pings + PingLines(feed)
  {
    PlayAppend(feed, [], pings, pings + PingLines(feed));
    assert feed + [] == feed;
    assert Replies(feed, pings) + [] == Replies(feed, pings);
  }

  /** A `quit` line after ordinary lines ends the session: nothing after it
      is read, the results printed are those of the lines before it, one
      each, and the worker has been told to quit. */
  lemma QuitEndsSession(pre: seq<ReadResult>, q: string, post: seq<ReadResult>, pings: U32)
    requires AllOrdinary(pre)
    requires pings + PingLines(pre) < U32_LIMIT
    requires Trim(q) == "quit"
    ensures var t := Play(pre + [Line(q)] + post, pings, true);
      && t.ending == Quitted && !t.workerAlive
      && t.printed == Replies(pre, pings)
  {
    assert pre + [Line(q)] + post == pre + ([Line(q)] + post);
    PlayAppend(pre, [Line(q)] + post, pings, pings + PingLines(pre));
    PlayQuitCons(q, post, pings + PingLines(pre), true);
    assert Replies(pre, pings) + [] == Replies(pre, pings);
  }

  /** A failed read after ordinary lines leaves the session stuck: the
      input thread has exited while main and the (live) worker still hold
      senders to each other, so neither receive fails. */
  lemma ReadFailureStalls(pre: seq<ReadResult>, post: seq<ReadResult>, pings: U32)
    requires AllOrdinary(pre)
    requires pings + PingLines(pre) < U32_LIMIT
    ensures var t := Play(pre + [ReadFailed] + post, pings, true);
      && t.ending == InputFailed && t.workerAlive
      && t.printed == Replies(pre, pings)
  {
    assert pre + [ReadFailed] + post == pre + ([ReadFailed] + post);
    PlayAppend(pre, [ReadFailed] + post, pings, pings + PingLines(pre));
    PlayReadFailedCons(post, pings + PingLines(pre), true);
    assert Replies(pre, pings) + [] == Replies(pre, pings);
  }

  /** An `add` whose sum leaves the u32 range prints nothing and kills the
      worker; the session goes on with the worker gone. */
  lemma OverflowKillsWorker(x: string, rest: seq<ReadResult>, pings: U32, a: U32, b: U32)
    requires Command.TryFrom(Trim(x)) == Ok(Add(a, b)) && a + b >= U32_LIMIT
    ensures Play([Line(x)] + rest, pings, true) == Play(rest, pings, false)
  {
    var feed := [Line(x)] + rest;
    OtherLinesForwarded(x);
    assert feed[0] == Line(x) && feed[1..] == rest;
    assert InputTurn(Line(x), true) == Turn(Some(UserInput(Trim(x))), true);
    assert Dispatch(Got(UserInput(Trim(x))), true) == Reaction(None, Some(DoWork(Trim(x))), false, Running);
    assert Play(feed, pings, true) == MainTakes(UserInput(Trim(x)), rest, pings, true);
    assert MainTakes(UserInput(Trim(x)), rest, pings, true) == WorkerTakes(DoWork(Trim(x)), rest, pings);
    assert Step(pings, DoWork(Trim(x)), true) == (Panicked, pings);
  }

  /** How main ends after the worker has gone, on the next read. */
  function EndingWithoutWorker(r: ReadResult): Ending {
    if r.ReadFailed? then MainRecvFailed
    else if Trim(r.text) == "quit" then Quitted
    else MainExited
  }

  /** With the worker gone, the next read ends the session and main exits
      with nothing more printed: `quit` ends it the ordinary way (the
      `Quit` to the worker fails and is only logged), any other line makes
      main's forward fail, and after a failed read no sender of main's
      channel is left, so main's receive fails. */
  lemma WorkerGoneEnds(r: ReadResult, rest: seq<ReadResult>, pings: U32)
    ensures Play([r] + rest, pings, false) == Transcript([], EndingWithoutWorker(r), pings, false)
  {
    var feed := [r] + rest;
    assert feed[0] == r && feed[1..] == rest;
    if r.Line? {
      var m := Classify(r.text);
      assert InputTurn(r, true).sent == Some(m);
      assert Dispatch(Got(m), false).next == Stopped;
      assert Play(feed, pings, false) == MainTakes(m, rest, pings, false);
    }
  }

  /** An overflowing `add` prints nothing, and the read after it ends the
      session with main exiting. */
  lemma OverflowEndsSession(x: string, r: ReadResult, rest: seq<ReadResult>, pings: U32, a: U32, b: U32)
    requires Command.TryFrom(Trim(x)) == Ok(Add(a, b)) && a + b >= U32_LIMIT
    ensures Play([Line(x), r] + rest, pings, true) == Transcript([], EndingWithoutWorker(r), pings, false)
  {
    assert [Line(x), r] + rest == [Line(x)] + ([r] + rest);
    OverflowKillsWorker(x, [r] + rest, pings, a, b);
    WorkerGoneEnds(r, rest, pings);
  }
}
