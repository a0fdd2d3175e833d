/**
  `Work::try_from` of the checkpoint crate: split the command string on
  ASCII whitespace and match the token list against the grammar
  `add <u32> <u32>` | `ping` | `help` | `?`.
*/
module Command {
  import opened Wrappers
  import opened Text
  import opened Messages

  /** The causes of an `anyhow::Error` from `try_from`: a command that fits
      no rule (the error carries the whole input), or an operand of `add`
      that is not a u32 (the `ParseIntError` propagated by `?`). */
  datatype ParseError = Malformed(input: string) | BadNumber(kind: IntErrorKind)

  /** The text of the `bail!` for a command that fits no rule. */
  function MalformedMessage(value: string): (m: string)
    ensures Contains(m, value)
  {
    var m := "unsupported or malformed command string '" + value + "'";
    assert OccursAt(m, value, 41);
    m
  }

  /** The `Display` text of the error. */
  function ErrorText(e: ParseError): string {
    match e
    case Malformed(value) => MalformedMessage(value)
    case BadNumber(kind) => IntErrorText(kind)
  }

  /** The token shape `["add", A, B]`. */
  predicate IsAddShape(words: seq<string>) {
    |words| == 3 && words[0] == "add"
  }

  /** `Work::try_from(value)`. */
  function TryFrom(value: string): (r: Result<Work, ParseError>)
    ensures r.Err? && r.error.Malformed? ==> r.error.input == value
  {
    var words := SplitAsciiWhitespace(value);
    if IsAddShape(words) then
      match ParseU32(words[1])
      case Err(kind) => Err(BadNumber(kind))
      case Ok(a) =>
        match ParseU32(words[2])
        case Err(kind) => Err(BadNumber(kind))
        case Ok(b) => Ok(Add(a, b))
    else if words == ["ping"] then Ok(Ping)
    else if words == ["help"] then Ok(Help)
    else if words == ["?"] then Ok(Help)
    else Err(Malformed(value))
  }

  /** `Add(a, b)` exactly when the tokens are `add`, a u32 literal of value
      `a` and a u32 literal of value `b`. */
  lemma AddExactly(value: string, a: U32, b: U32)
    ensures TryFrom(value) == Ok(Add(a, b)) <==>
      var words := SplitAsciiWhitespace(value);
      && IsAddShape(words)
      && IsU32Literal(words[1]) && DecimalValue(Unsigned(words[1])) == a
      && IsU32Literal(words[2]) && DecimalValue(Unsigned(words[2])) == b
  {
  }

  /** `Ping` exactly for the token list `["ping"]`. */
  lemma PingExactly(value: string)
    ensures TryFrom(value) == Ok(Ping) <==> SplitAsciiWhitespace(value) == ["ping"]
  {
  }

  /** `Help` exactly for the token lists `["help"]` and `["?"]`. */
  lemma HelpExactly(value: string)
    ensures TryFrom(value) == Ok(Help) <==>
      SplitAsciiWhitespace(value) == ["help"] || SplitAsciiWhitespace(value) == ["?"]
  {
  }

  /** Every token list outside the grammar (including the empty one, the
      wrong arity and an unknown or differently cased verb) is rejected with
      a message that contains the whole input. */
  lemma MalformedExactly(value: string)
    ensures TryFrom(value) == Err(Malformed(value)) <==>
      var words := SplitAsciiWhitespace(value);
      !IsAddShape(words) && words != ["ping"] && words != ["help"] && words != ["?"]
    ensures TryFrom(value).Err? && TryFrom(value).error.Malformed? ==>
      Contains(ErrorText(TryFrom(value).error), value)
  {
  }

  /** A number error arises only for the `add` shape, with the kind of the
      first operand that does not parse. */
  lemma BadNumberExactly(value: string, kind: IntErrorKind)
    ensures TryFrom(value) == Err(BadNumber(kind)) <==>
      var words := SplitAsciiWhitespace(value);
      && IsAddShape(words)
      && (if !IsU32Literal(words[1]) then ParseU32(words[1]) == Err(kind)
          else !IsU32Literal(words[2]) && ParseU32(words[2]) == Err(kind))
  {
  }

  /** A canonical command string for each `Work`. */
  function Render(w: Work): string {
    match w
    case Add(a, b) => JoinWords(["add", NatToString(a), NatToString(b)])
    case Ping => "ping"
    case Help => "help"
  }

  lemma DigitsAreWord(s: string)
    requires |s| > 0 && AllDigits(s)
    ensures IsWord(s)
  {
  }

  /** Parsing is a left inverse of rendering: every `Work` value can be
      written as a command that parses back to it. */
  lemma {:induction false} RenderRoundTrip(w: Work)
    ensures TryFrom(Render(w)) == Ok(w)
  {
    match w
    case Add(a, b) =>
      var words := ["add", NatToString(a), NatToString(b)];
      DigitsAreWord(NatToString(a));
      DigitsAreWord(NatToString(b));
      assert IsWord("add");
      SplitJoin(words);
      ParseRendered(a);
      ParseRendered(b);
    case Ping =>
      SplitJoin(["ping"]);
    case Help =>
      SplitJoin(["help"]);
  }

  /** Two parse results that differ at most in the input quoted by a
      `Malformed` error. */
  predicate SameVerdict(r1: Result<Work, ParseError>, r2: Result<Work, ParseError>) {
    if r1.Ok? then r2 == r1
    else r2.Err? && (r1.error.BadNumber? ==> r2 == r1) && (r1.error.Malformed? ==> r2.error.Malformed?)
  }

  /** The result depends on the input only through its tokens. */
  lemma SameWordsSameVerdict(x: string, y: string)
    requires SplitAsciiWhitespace(x) == SplitAsciiWhitespace(y)
    ensures SameVerdict(TryFrom(x), TryFrom(y))
  {
  }

  /** A run of ASCII whitespace between tokens may be replaced by a single
      space, and leading or trailing ASCII whitespace dropped, without
      changing what the command means. */
  lemma {:induction false} WhitespaceInsensitive(pre: string, a: string, sep: string, b: string, post: string)
    requires AllAsciiWhitespace(pre) && AllAsciiWhitespace(post)
    requires |sep| > 0 && AllAsciiWhitespace(sep)
    ensures SameVerdict(TryFrom(pre + a + sep + b + post), TryFrom(a + " " + b))
  {
    var x := pre + a + sep + b + post;
    assert x == pre + ((a + sep + b) + post);
    SplitDropsLeading(pre, (a + sep + b) + post);
    SplitDropsTrailing(a + sep + b, post);
    SplitCollapsesSeparators(a, sep, b);
    SameWordsSameVerdict(x, a + " " + b);
  }
}
