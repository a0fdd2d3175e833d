/**
  The input thread of the checkpoint crate: per line read, trim it; the
  line `quit` becomes `MainMsg::Quit` and ends the loop, any other line is
  sent on as `UserInput` of the trimmed text.
*/
module InputThread {
  import opened Wrappers
  import opened Text
  import opened Messages

  /** The result of one `stdin.read_line`.  At the end of the input
      `read_line` succeeds with zero bytes, so end of input is `Line("")`,
      not `ReadFailed`. */
  datatype ReadResult = Line(text: string) | ReadFailed

  /** The message the input thread makes of a line it read. */
  function Classify(line: string): (m: MainMsg)
    ensures !m.WorkResult?
    ensures m.Quit? <==> Trim(line) == "quit"
  {
    var trimmed := Trim(line);
    if trimmed == "quit" then MainMsg.Quit else UserInput(trimmed)
  }

  /** What one turn of the input loop sends, and whether the loop goes on. */
  datatype Turn = Turn(sent: Option<MainMsg>, continues: bool)

  /** One turn of the input loop.  `mainAlive` says whether the send to the
      main thread succeeds; the result of sending `Quit` is ignored.  The
      loop goes on exactly after a line that is not `quit` was sent; it
      sends exactly when a line was read and main still receives, and what
      it sends is the classification of that line. */
  function InputTurn(read: ReadResult, mainAlive: bool): (turn: Turn)
    ensures turn.continues <==> read.Line? && Trim(read.text) != "quit" && mainAlive
    ensures turn.sent.Some? <==> read.Line? && mainAlive
    ensures turn.sent.Some? ==> turn.sent.value == Classify(read.text)
  {
    match read
    case ReadFailed => Turn(None, false)
    case Line(line) =>
      var m := Classify(line);
      if m.Quit? then Turn(if mainAlive then Some(m) else None, false)
      else if mainAlive then Turn(Some(m), true)
      else Turn(None, false)
  }

  /** `quit` with any whitespace around it ends the input loop after
      sending `Quit`. */
  lemma {:induction false} QuitWithPadding(pre: string, post: string, mainAlive: bool)
    requires AllWhitespace(pre) && AllWhitespace(post)
    ensures Classify(pre + "quit" + post) == MainMsg.Quit
    ensures InputTurn(Line(pre + "quit" + post), mainAlive) == Turn(if mainAlive then Some(MainMsg.Quit) else None, false)
  {
    TrimPadded(pre, "quit", post);
  }

  /** Only such a line is classified as `Quit`. */
  lemma QuitOnlyWithPadding(line: string)
    requires Classify(line) == MainMsg.Quit
    ensures exists i :: OccursAt(line, "quit", i) && AllWhitespace(line[..i]) && AllWhitespace(line[i + 4..])
  {
    TrimShape(line);
  }

  /** Any other line is sent on trimmed; classifying the trimmed text again
      gives the same message. */
  lemma OtherLinesForwarded(line: string)
    requires Trim(line) != "quit"
    ensures Classify(line) == UserInput(Trim(line))
    ensures Classify(Trim(line)) == Classify(line)
  {
    TrimIdempotent(line);
  }

  /** At the end of the input the loop goes on sending empty input. */
  lemma EndOfInputRepeats()
    ensures InputTurn(Line(""), true) == Turn(Some(UserInput("")), true)
  {
    TrimPadded([], [], []);
  }
}
