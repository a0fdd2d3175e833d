/**
  `Work::try_from` of the chapter-1 crate: the same grammar as the
  checkpoint crate, with `String` errors.  A bad operand of `add` yields
  the number parser's message; every other rejected command a message
  that quotes the input.
*/
module Chapter1 {
  import opened Wrappers
  import opened Text
  import opened Messages
  import Command

  /** `Work::try_from(value)` with the error type `String`. */
  function TryFrom(value: string): (r: Result<Work, string>)
    ensures r.Err? ==> |r.error| > 0
  {
    var words := SplitAsciiWhitespace(value);
    if |words| == 3 && words[0] == "add" then
      match ParseU32(words[1])
      case Err(kind) => Err(IntErrorText(kind))
      case Ok(a) =>
        match ParseU32(words[2])
        case Err(kind) => Err(IntErrorText(kind))
        case Ok(b) => Ok(Add(a, b))
    else if words == ["ping"] then Ok(Ping)
    else if words == ["help"] then Ok(Help)
    else if words == ["?"] then Ok(Help)
    else Err(Command.MalformedMessage(value))
  }

  /** The chapter-1 parser accepts exactly the inputs the checkpoint parser
      accepts, with the same `Work`; its error is the text of the
      checkpoint parser's error. */
  lemma AgreesWithCheckpoint(value: string)
    ensures TryFrom(value).Ok? <==> Command.TryFrom(value).Ok?
    ensures TryFrom(value).Ok? ==> TryFrom(value).value == Command.TryFrom(value).value
    ensures TryFrom(value).Err? ==> TryFrom(value).error == Command.ErrorText(Command.TryFrom(value).error)
  {
  }

  /** `["add", A, B]` with both operands u32 literals yields `Add(A, B)`;
      a bad operand yields the number parser's message for the first one
      that fails. */
  lemma AddCases(value: string)
    requires Command.IsAddShape(SplitAsciiWhitespace(value))
    ensures var words := SplitAsciiWhitespace(value);
      TryFrom(value) ==
        if !IsU32Literal(words[1]) then Err(IntErrorText(ParseU32(words[1]).error))
        else if !IsU32Literal(words[2]) then Err(IntErrorText(ParseU32(words[2]).error))
        else Ok(Add(DecimalValue(Unsigned(words[1])), DecimalValue(Unsigned(words[2]))))
  {
  }

  /** `["ping"]` yields `Ping`, `["help"]` and `["?"]` yield `Help`, and any
      other token list outside the `add` shape is rejected with a message
      containing the input. */
  lemma OtherCases(value: string)
    requires !Command.IsAddShape(SplitAsciiWhitespace(value))
    ensures var words := SplitAsciiWhitespace(value);
      && (TryFrom(value) == Ok(Ping) <==> words == ["ping"])
      && (TryFrom(value) == Ok(Help) <==> words == ["help"] || words == ["?"])
      && (TryFrom(value).Err? ==> Contains(TryFrom(value).error, value))
  {
  }
}
