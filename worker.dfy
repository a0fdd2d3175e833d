/**
  The worker thread of the checkpoint crate.  It owns one private counter,
  `pings`, and for each message it receives does exactly one of: send one
  `WorkResult` and go on, stop on `Quit` without sending, or stop because
  the send failed.  Its `u32` arithmetic is modelled as a debug build runs
  it: an addition that leaves the 32-bit range panics, which ends the
  thread.
*/
module WorkerThread {
  import opened Wrappers
  import opened Text
  import opened Messages
  import Command

  const HELP_TEXT: string := "available commands: add, ping, help (or ?), quit"

  /** The report for the `count`-th ping: "time" for the first, "times" for
      every other count. */
  function PingText(count: nat): string {
    "ping'd worker thread " + NatToString(count) + " " + (if count == 1 then "time" else "times")
  }

  /** The report for a command that does not parse. */
  function FailureText(e: Command.ParseError): string {
    "worker thread could not parse work: " + Command.ErrorText(e)
  }

  /** What one turn of the worker loop does with a received message. */
  datatype Outcome =
    | Sent(result: string)        // `WorkResult(result)` delivered; the loop goes on
    | SendFailed(result: string)  // the main thread's receiver is gone; the loop ends
    | QuitRequested               // `WorkerMsg::Quit`; the loop ends, nothing is sent
    | Panicked                    // u32 overflow; the thread unwinds

  /** Sending `result` succeeds exactly when the main thread still receives. */
  function Deliver(result: string, mainAlive: bool): (o: Outcome)
    ensures o.Sent? || o.SendFailed?
    ensures o.result == result
    ensures o.Sent? <==> mainAlive
  {
    if mainAlive then Sent(result) else SendFailed(result)
  }

  /** One turn of the worker loop: the outcome and the ping count after it.
      Only `Quit` stops the loop silently, and the count moves on by at
      most one; `StepPanics` and `StepReplies` say when the turn panics and
      what it answers otherwise. */
  function Step(pings: U32, msg: WorkerMsg, mainAlive: bool): (r: (Outcome, U32))
    ensures r.0.QuitRequested? <==> msg.Quit?
    ensures r.1 == pings || (r.1 == pings + 1 && !r.0.Panicked?)
  {
    match msg
    case Quit => (QuitRequested, pings)
    case DoWork(s) =>
      match Command.TryFrom(s)
      case Ok(Add(a, b)) =>
        if a + b >= U32_LIMIT then (Panicked, pings)
        else (Deliver(NatToString(a + b), mainAlive), pings)
      case Ok(Ping) =>
        if pings + 1 >= U32_LIMIT then (Panicked, pings)
        else (Deliver(PingText(pings + 1), mainAlive), pings + 1)
      case Ok(Help) => (Deliver(HELP_TEXT, mainAlive), pings)
      case Err(e) => (Deliver(FailureText(e), mainAlive), pings)
  }

  /** The command `s` makes the worker's u32 arithmetic overflow. */
  predicate Overflows(pings: U32, s: string) {
    match Command.TryFrom(s)
    case Ok(Add(a, b)) => a + b >= U32_LIMIT
    case Ok(Ping) => pings + 1 >= U32_LIMIT
    case _ => false
  }

  /** The count after handling `command` from `pings`: one more for a ping. */
  function NextCount(pings: nat, command: string): nat {
    pings + (if Command.TryFrom(command) == Ok(Ping) then 1 else 0)
  }

  /** The result the worker reports for `command` once its count is
      `count`: the sum for `add`, the count for `ping`, the help text for
      `help` and `?`, and the error for anything that does not parse. */
  function Reply(command: string, count: nat): (r: string)
    ensures r != []
    ensures Command.TryFrom(command).Ok? && Command.TryFrom(command).value.Add? ==>
      var w := Command.TryFrom(command).value;
      AllDigits(r) && DecimalValue(r) == w.a + w.b
    ensures Command.TryFrom(command).Err? ==>
      r == "worker thread could not parse work: " + Command.ErrorText(Command.TryFrom(command).error)
  {
    match Command.TryFrom(command)
    case Ok(Add(a, b)) => NatToString(a + b)
    case Ok(Ping) => PingText(count)
    case Ok(Help) => HELP_TEXT
    case Err(e) => FailureText(e)
  }

  /** Without overflow, a `DoWork` is answered with its reply and moves the
      count on by its pings; the answer reaches main exactly when main
      still receives. */
  lemma StepReplies(pings: U32, s: string, mainAlive: bool)
    requires !Overflows(pings, s)
    ensures NextCount(pings, s) < U32_LIMIT
    ensures Step(pings, DoWork(s), mainAlive) == (Deliver(Reply(s, NextCount(pings, s)), mainAlive), NextCount(pings, s))
  {
  }

  /** The worker panics exactly on a `DoWork` whose command overflows, and
      its count stays where it was. */
  lemma StepPanics(pings: U32, msg: WorkerMsg, mainAlive: bool)
    ensures var (o, p) := Step(pings, msg, mainAlive);
      && (o.Panicked? <==> msg.DoWork? && Overflows(pings, msg.text))
      && (o.Panicked? ==> p == pings)
  {
  }

  /** The worker thread's state: its private ping counter. */
  class Worker {
    var pings: U32

    constructor ()
      ensures pings == 0
    {
      pings := 0;
    }

    /** The body of the worker loop for one received message. */
    method Handle(msg: WorkerMsg, mainAlive: bool) returns (outcome: Outcome)
      modifies this
      ensures (outcome, pings) == Step(old(pings), msg, mainAlive)
    {
      match msg {
        case Quit =>
          outcome := QuitRequested;
        case DoWork(s) =>
          var work := Command.TryFrom(s);
          match work {
            case Ok(Add(a, b)) =>
              if a + b >= U32_LIMIT {
                outcome := Panicked;
              } else {
                outcome := Deliver(NatToString(a + b), mainAlive);
              }
            case Ok(Ping) =>
              if pings + 1 >= U32_LIMIT {
                outcome := Panicked;
              } else {
                pings := pings + 1;
                outcome := Deliver(PingText(pings), mainAlive);
              }
            case Ok(Help) =>
              outcome := Deliver(HELP_TEXT, mainAlive);
            case Err(e) =>
              outcome := Deliver(FailureText(e), mainAlive);
          }
      }
    }

    /** The worker loop over the messages it receives, in order.
        `accepts` is how many sends succeed before main's receiver is
        dropped; once `inbox` is used up every sender is gone and the
        receive fails. */
    method Run(inbox: seq<WorkerMsg>, accepts: nat) returns (results: seq<string>, exit: WorkerExit)
      modifies this
      ensures ServeLog(results, exit, pings) == Serve(old(pings), inbox, accepts)
    {
      results := [];
      var i, left := 0, accepts;
      while i < |inbox|
        invariant i <= |inbox| && |results| == i
        invariant Serve(old(pings), inbox, accepts) == Prepend(results, Serve(pings, inbox[i..], left))
      {
        ghost var before := pings;
        var outcome := Handle(inbox[i], left > 0);
        if !outcome.Sent? {
          ServeTurnStops(results, before, inbox[i..], left, outcome, pings);
          exit := StopReason(outcome);
          return;
        }
        ServeTurnSent(results, before, inbox[i..], left, outcome, pings);
        assert inbox[i..][1..] == inbox[i + 1..];
        results := results + [outcome.result];
        i, left := i + 1, left - 1;
      }
      exit := RecvFailed;
    }
  }

  /** Why the worker loop ended. */
  datatype WorkerExit = RecvFailed | QuitReceived | SendError | Panic

  /** The results the worker sent, why it stopped, and its final count. */
  datatype ServeLog = ServeLog(results: seq<string>, exit: WorkerExit, pings: U32)

  function Prepend(results: seq<string>, log: ServeLog): ServeLog {
    ServeLog(results + log.results, log.exit, log.pings)
  }

  /** One fewer result the main thread will still take. */
  function Fewer(accepts: nat): nat {
    if accepts == 0 then 0 else accepts - 1
  }

  /** The whole worker loop, one `Step` per received message. */
  function Serve(pings: U32, inbox: seq<WorkerMsg>, accepts: nat): (r: ServeLog)
    decreases |inbox|, 0
  {
    if inbox == [] then ServeLog([], RecvFailed, pings)
    else ServeNext(pings, inbox[0], inbox[1..], accepts)
  }

  /** The turn on `msg`, then the loop on `rest` unless it stopped. */
  function ServeNext(pings: U32, msg: WorkerMsg, rest: seq<WorkerMsg>, accepts: nat): (r: ServeLog)
    decreases |rest|, 1
  {
    var (o, p) := Step(pings, msg, accepts > 0);
    if o.Sent? then Prepend([o.result], Serve(p, rest, Fewer(accepts)))
    else ServeLog([], StopReason(o), p)
  }

  /** Why the loop ends on a turn that sent nothing. */
  function StopReason(o: Outcome): WorkerExit
    requires !o.Sent?
  {
    if o.SendFailed? then SendError
    else if o.QuitRequested? then QuitReceived
    else Panic
  }

  /** A turn of `Serve` that sends, after the results already sent: the
      result is appended and the loop goes on with the rest of the inbox. */
  lemma ServeTurnSent(sent: seq<string>, pings: U32, inbox: seq<WorkerMsg>, accepts: nat, o: Outcome, p: U32)
    requires inbox != [] && (o, p) == Step(pings, inbox[0], accepts > 0) && o.Sent?
    ensures accepts > 0
    ensures Prepend(sent, Serve(pings, inbox, accepts)) == Prepend(sent + [o.result], Serve(p, inbox[1..], accepts - 1))
  {
    var log := Serve(pings, inbox, accepts);
    ServeFirst(pings, inbox, accepts);
    var rest := Serve(p, inbox[1..], accepts - 1);
    assert log == Prepend([o.result], rest);
    assert sent + ([o.result] + rest.results) == (sent + [o.result]) + rest.results;
  }

  /** A turn of `Serve` that sends nothing ends the loop, with the results
      already sent and the matching exit. */
  lemma ServeTurnStops(sent: seq<string>, pings: U32, inbox: seq<WorkerMsg>, accepts: nat, o: Outcome, p: U32)
    requires inbox != [] && (o, p) == Step(pings, inbox[0], accepts > 0) && !o.Sent?
    ensures Prepend(sent, Serve(pings, inbox, accepts)) == ServeLog(sent, StopReason(o), p)
  {
    assert Serve(pings, inbox, accepts) == ServeLog([], StopReason(o), p);
    assert sent + [] == sent;
  }

  // -----------------------------------------------------------------------
  // Properties of one turn
  // -----------------------------------------------------------------------

  /** A `DoWork` that does not overflow yields exactly one result, whatever
      the command; the worker goes on exactly when the send succeeds. */
  lemma DoWorkAnswersOnce(pings: U32, s: string, mainAlive: bool)
    requires !Overflows(pings, s)
    ensures var (o, _) := Step(pings, DoWork(s), mainAlive);
      (o.Sent? || o.SendFailed?) && (o.Sent? <==> mainAlive)
  {
  }

  /** `Quit` ends the worker with no result and the count untouched. */
  lemma QuitIsSilent(pings: U32, mainAlive: bool)
    ensures Step(pings, WorkerMsg.Quit, mainAlive) == (QuitRequested, pings)
  {
  }

  /** `add a b` reports the decimal text of `a + b`, which parses back to
      the sum, when the sum fits in a u32; otherwise the worker panics.
      The count is unchanged. */
  lemma AddReportsSum(pings: U32, s: string, a: U32, b: U32, mainAlive: bool)
    requires Command.TryFrom(s) == Ok(Add(a, b))
    ensures var (o, p) := Step(pings, DoWork(s), mainAlive);
      && p == pings
      && (a + b >= U32_LIMIT <==> o.Panicked?)
      && (a + b < U32_LIMIT ==> o.result == NatToString(a + b) && ParseU32(o.result) == Ok(a + b))
  {
    if a + b < U32_LIMIT {
      ParseRendered(a + b);
    }
  }

  /** `ping` raises the count by exactly one and reports the new count. */
  lemma PingCounts(pings: U32, s: string, mainAlive: bool)
    requires Command.TryFrom(s) == Ok(Ping)
    requires pings + 1 < U32_LIMIT
    ensures var (o, p) := Step(pings, DoWork(s), mainAlive);
      p == pings + 1 && o.result == PingText(p)
  {
  }

  /** Everything other than a ping leaves the count where it was. */
  lemma OnlyPingCounts(pings: U32, msg: WorkerMsg, mainAlive: bool)
    requires !(msg.DoWork? && Command.TryFrom(msg.text) == Ok(Ping))
    ensures Step(pings, msg, mainAlive).1 == pings
  {
  }

  /** The ping report is its five words joined by single spaces. */
  lemma {:induction false} PingTextWords(count: nat)
    ensures PingText(count) ==
      JoinWords(["ping'd", "worker", "thread", NatToString(count), if count == 1 then "time" else "times"])
  {
    var n := NatToString(count);
    var w := if count == 1 then "time" else "times";
    var words := ["ping'd", "worker", "thread", n, w];
    assert words[1..][1..][1..][1..] == [w];
    assert JoinWords(words[3..]) == n + " " + w;
    assert JoinWords(words[2..]) == "thread" + " " + (n + " " + w);
    assert JoinWords(words[1..]) == "worker" + " " + ("thread" + " " + (n + " " + w));
  }

  /** The ping report reads back as its count, with the singular word
      exactly for the first ping. */
  lemma {:induction false} PingTextReadsBack(count: U32)
    ensures var words := SplitAsciiWhitespace(PingText(count));
      && |words| == 5
      && words[..3] == ["ping'd", "worker", "thread"]
      && ParseU32(words[3]) == Ok(count)
      && (words[4] == "time" <==> count == 1)
      && (words[4] == "times" <==> count != 1)
  {
    var n := NatToString(count);
    var w := if count == 1 then "time" else "times";
    var words := ["ping'd", "worker", "thread", n, w];
    assert IsWord(n);
    assert IsWord("ping'd") && IsWord("worker") && IsWord("thread");
    assert IsWord(w);
    PingTextWords(count);
    SplitJoin(words);
    ParseRendered(count);
  }

  /** `help` and `?` both report the same fixed help text and leave the
      count alone. */
  lemma HelpIsFixed(pings: U32, s: string, mainAlive: bool)
    requires SplitAsciiWhitespace(s) == ["help"] || SplitAsciiWhitespace(s) == ["?"]
    ensures Step(pings, DoWork(s), mainAlive) == (Deliver(HELP_TEXT, mainAlive), pings)
  {
  }

  /** A command that does not parse is reported as a result, not as a stop;
      a malformed one quotes the input. */
  lemma FailureIsReported(pings: U32, s: string, mainAlive: bool)
    requires Command.TryFrom(s).Err?
    ensures var (o, p) := Step(pings, DoWork(s), mainAlive);
      && p == pings
      && o == Deliver(FailureText(Command.TryFrom(s).error), mainAlive)
      && (Command.TryFrom(s).error.Malformed? ==> Contains(o.result, s))
  {
    var e := Command.TryFrom(s).error;
    if e.Malformed? {
      var m := Command.MalformedMessage(s);
      var i :| OccursAt(m, s, i);
      var prefix := "worker thread could not parse work: ";
      assert FailureText(e) == prefix + m;
      assert OccursAt(prefix + m, s, |prefix| + i) by {
        assert (prefix + m)[|prefix| + i..|prefix| + i + |s|] == m[i..i + |s|];
      }
    }
  }

  // -----------------------------------------------------------------------
  // Properties of the loop
  // -----------------------------------------------------------------------

  /** The number of `DoWork` messages among `msgs` whose command is `ping`. */
  function CountPings(msgs: seq<WorkerMsg>): nat {
    if msgs == [] then 0
    else (if msgs[0].DoWork? && Command.TryFrom(msgs[0].text) == Ok(Ping) then 1 else 0)
         + CountPings(msgs[1..])
  }

  /** Every message the loop answered was a `DoWork`, in order.  The loop
      runs to the end of the inbox exactly when it answered every message;
      it stops at a `Quit` without answering it; it stops on a failed send
      once `accepts` sends have succeeded and main's receiver is dropped. */
  lemma {:induction false} ServeAnswersEach(pings: U32, inbox: seq<WorkerMsg>, accepts: nat)
    ensures var log := Serve(pings, inbox, accepts);
      && |log.results| <= |inbox|
      && (forall k :: 0 <= k < |log.results| ==> inbox[k].DoWork?)
      && (log.exit == RecvFailed <==> |log.results| == |inbox|)
      && (log.exit == QuitReceived ==> inbox[|log.results|] == WorkerMsg.Quit)
      && (log.exit == SendError ==> |log.results| == accepts && inbox[|log.results|].DoWork?)
    decreases |inbox|
  {
    if inbox != [] {
      var rest := inbox[1..];
      var log := Serve(pings, inbox, accepts);
      ServeFirst(pings, inbox, accepts);
      var (o, p) := Step(pings, inbox[0], accepts > 0);
      if o.Sent? {
        ServeAnswersEach(p, rest, Fewer(accepts));
        var restLog := Serve(p, rest, Fewer(accepts));
        assert log == Prepend([o.result], restLog);
        assert inbox[0].DoWork?;
        var n := |restLog.results|;
        assert |log.results| == 1 + n;
        AllWorkShift(inbox, n);
      }
    }
  }

  /** A work message followed by `n` more of them opens the inbox with
      `1 + n` of them. */
  lemma AllWorkShift(inbox: seq<WorkerMsg>, n: nat)
    requires inbox != [] && inbox[0].DoWork? && n < |inbox|
    requires forall k :: 0 <= k < n ==> inbox[1..][k].DoWork?
    ensures forall k :: 0 <= k < 1 + n ==> inbox[k].DoWork?
  {
    forall k | 0 <= k < 1 + n ensures inbox[k].DoWork? {
      if k > 0 { assert inbox[k] == inbox[1..][k - 1]; }
    }
  }

  /** Without overflow, the final count is the initial count plus the
      pings among the messages the loop handled (the one it stopped on
      included: a ping whose report cannot be sent is still counted). */
  lemma {:induction false} ServeCountsPings(pings: U32, inbox: seq<WorkerMsg>, accepts: nat)
    ensures var log := Serve(pings, inbox, accepts);
      && (log.exit == RecvFailed ==> log.pings == pings + CountPings(inbox))
      && (log.exit == QuitReceived || log.exit == SendError ==>
            |log.results| < |inbox| && log.pings == pings + CountPings(inbox[..|log.results| + 1]))
    decreases |inbox|
  {
    if inbox != [] {
      var rest := inbox[1..];
      var log := Serve(pings, inbox, accepts);
      var (o, p) := Step(pings, inbox[0], accepts > 0);
      ServeFirst(pings, inbox, accepts);
      StepCounts(pings, inbox[0], accepts > 0);
      if !o.Sent? {
        assert log == ServeLog([], StopReason(o), p);
        assert inbox[..1] == [inbox[0]];
      } else {
        var restLog := Serve(p, rest, Fewer(accepts));
        assert log == Prepend([o.result], restLog);
        ServeCountsPings(p, rest, Fewer(accepts));
        if restLog.exit == RecvFailed {
          CountPingsCons(inbox);
        } else if restLog.exit == QuitReceived || restLog.exit == SendError {
          var m := |log.results| + 1;
          assert m <= |inbox|;
          CountPingsCons(inbox[..m]);
          TakeTail(inbox, m);
        }
      }
    }
  }

  /** `Serve` on a non-empty inbox, one turn unfolded. */
  lemma ServeFirst(pings: U32, inbox: seq<WorkerMsg>, accepts: nat)
    requires inbox != []
    ensures var (o, p) := Step(pings, inbox[0], accepts > 0);
      Serve(pings, inbox, accepts) ==
        if o.Sent? then Prepend([o.result], Serve(p, inbox[1..], Fewer(accepts)))
        else ServeLog([], StopReason(o), p)
  {
    assert Serve(pings, inbox, accepts) == ServeNext(pings, inbox[0], inbox[1..], accepts);
  }

  /** A work message that does not overflow moves the count on by the
      pings in it. */
  lemma HeadCount(pings: U32, msg: WorkerMsg)
    requires msg.DoWork? && !Overflows(pings, msg.text)
    ensures NextCount(pings, msg.text) == pings + CountPings([msg])
  {
    StepCounts(pings, msg, true);
  }

  /** The `k`-th result the loop sends is the `Reply` to the `k`-th
      message, a `DoWork`, at the count the pings among the first `k + 1`
      messages bring it to. */
  lemma ServeRepliesAt(pings: U32, inbox: seq<WorkerMsg>, accepts: nat, k: nat)
    requires k < |Serve(pings, inbox, accepts).results|
    ensures k < |inbox| && inbox[k].DoWork?
    ensures Serve(pings, inbox, accepts).results[k] == Reply(inbox[k].text, pings + CountPings(inbox[..k + 1]))
  {
    ServeAnswersEach(pings, inbox, accepts);
    ServeReplyAtCount(pings, inbox, accepts, k, pings + CountPings(inbox[..k + 1]));
  }

  /** `ServeRepliesAt`, with the count the `k`-th reply is made at named
      `count`. */
  lemma {:induction false} ServeReplyAtCount(pings: U32, inbox: seq<WorkerMsg>, accepts: nat, k: nat, count: nat)
    requires k < |Serve(pings, inbox, accepts).results| && k < |inbox|
    requires count == pings + CountPings(inbox[..k + 1])
    ensures inbox[k].DoWork?
    ensures Serve(pings, inbox, accepts).results[k] == Reply(inbox[k].text, count)
    decreases k
  {
    var p := NextCount(pings, inbox[0].text);
    ServeHead(pings, inbox, accepts);
    var m := k + 1;
    CountPingsCons(inbox[..m]);
    TakeTail(inbox, m);
    HeadCount(pings, inbox[0]);
    if k > 0 {
      ServeReplyAtCount(p, inbox[1..], accepts - 1, k - 1, count);
    }
  }

  /** A loop that sends anything first answers its first message, a
      `DoWork` that does not overflow, and then goes on from there. */
  lemma ServeHead(pings: U32, inbox: seq<WorkerMsg>, accepts: nat)
    requires |Serve(pings, inbox, accepts).results| > 0
    ensures inbox != [] && inbox[0].DoWork? && !Overflows(pings, inbox[0].text) && accepts > 0
    ensures NextCount(pings, inbox[0].text) < U32_LIMIT
    ensures var p := NextCount(pings, inbox[0].text);
      Serve(pings, inbox, accepts) == Prepend([Reply(inbox[0].text, p)], Serve(p, inbox[1..], accepts - 1))
  {
    assert inbox != [];
    ServeFirst(pings, inbox, accepts);
    var (o, p) := Step(pings, inbox[0], accepts > 0);
    assert o.Sent?;
    StepReplies(pings, inbox[0].text, accepts > 0);
  }

  /** The loop panics only on a `DoWork` whose command overflows at the
      count the messages before it have reached, and the count stays where
      it was. */
  lemma {:induction false} ServePanicsOnOverflow(pings: U32, inbox: seq<WorkerMsg>, accepts: nat)
    ensures var log := Serve(pings, inbox, accepts);
      log.exit == Panic ==>
        && |log.results| < |inbox|
        && inbox[|log.results|].DoWork?
        && log.pings == pings + CountPings(inbox[..|log.results|])
        && Overflows(log.pings, inbox[|log.results|].text)
    decreases |inbox|
  {
    if inbox != [] {
      var log := Serve(pings, inbox, accepts);
      var rest := inbox[1..];
      ServeFirst(pings, inbox, accepts);
      var (o, p) := Step(pings, inbox[0], accepts > 0);
      if o.Sent? {
        StepCounts(pings, inbox[0], accepts > 0);
        var restLog := Serve(p, rest, Fewer(accepts));
        ServePanicsOnOverflow(p, rest, Fewer(accepts));
        assert log == Prepend([o.result], restLog);
        if restLog.exit == Panic {
          var m := |log.results|;
          assert m == |restLog.results| + 1;
          CountPingsCons(inbox[..m]);
          TakeTail(inbox, m);
          assert inbox[m] == rest[m - 1];
        }
      } else if o.Panicked? {
        assert inbox[..0] == [];
      }
    }
  }

  /** A turn that does not panic moves the count on by the pings in its
      one message. */
  lemma StepCounts(pings: U32, msg: WorkerMsg, mainAlive: bool)
    ensures var (o, p) := Step(pings, msg, mainAlive);
      !o.Panicked? ==> p == pings + CountPings([msg])
  {
    assert CountPings([msg]) == (if msg.DoWork? && Command.TryFrom(msg.text) == Ok(Ping) then 1 else 0);
  }

  /** The first `m` messages, less the first one, are the first `m - 1`
      after it. */
  lemma TakeTail<T>(s: seq<T>, m: nat)
    requires 0 < m <= |s|
    ensures s[..m][0] == s[0] && s[..m][1..] == s[1..][..m - 1]
  {
  }

  /** Counting pings one message at a time. */
  lemma CountPingsCons(msgs: seq<WorkerMsg>)
    requires msgs != []
    ensures CountPings(msgs) == CountPings([msgs[0]]) + CountPings(msgs[1..])
  {
    assert [msgs[0]][1..] == [];
  }
}
