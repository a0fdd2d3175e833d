/**
  The pieces of Rust's standard library that the REPL's sequential logic
  relies on, stated over `string` (a sequence of Unicode scalar values):
  `str::split_ascii_whitespace`, `str::trim`, `str::parse::<u32>` and the
  decimal rendering `format!("{}", n)` of an unsigned integer.
*/
module Text {
  import opened Wrappers

  // ---------------------------------------------------------------------
  // Whitespace
  // ---------------------------------------------------------------------

  /** `u8::is_ascii_whitespace`: space, tab, line feed, form feed and
      carriage return.  The vertical tab U+000B is not one of them. */
  predicate IsAsciiWhitespace(c: char) {
    c == ' ' || c == '\t' || c == '\n' || c == '\U{000C}' || c == '\r'
  }

  /** `char::is_whitespace`: the Unicode White_Space property. */
  predicate IsWhitespace(c: char) {
    var n := c as int;
    (0x09 <= n <= 0x0D) || n == 0x20 || n == 0x85 || n == 0xA0 || n == 0x1680
    || (0x2000 <= n <= 0x200A) || n == 0x2028 || n == 0x2029 || n == 0x202F
    || n == 0x205F || n == 0x3000
  }

  predicate AllAsciiWhitespace(s: string) {
    forall i :: 0 <= i < |s| ==> IsAsciiWhitespace(s[i])
  }

  predicate AllWhitespace(s: string) {
    forall i :: 0 <= i < |s| ==> IsWhitespace(s[i])
  }

  /** `part` occurs in `s` starting at index `i`. */
  predicate OccursAt(s: string, part: string, i: int) {
    0 <= i <= |s| - |part| && s[i..i + |part|] == part
  }

  /** `part` occurs somewhere in `s` as a contiguous piece. */
  ghost predicate Contains(s: string, part: string) {
    exists i :: OccursAt(s, part, i)
  }

  // ---------------------------------------------------------------------
  // split_ascii_whitespace
  // ---------------------------------------------------------------------

  /** A token of `split_ascii_whitespace`: non-empty, no ASCII whitespace. */
  predicate IsWord(w: string) {
    |w| > 0 && forall i :: 0 <= i < |w| ==> !IsAsciiWhitespace(w[i])
  }

  /** Length of the run of non-separators at the front of `s`. */
  function WordEnd(s: string): (n: nat)
    ensures n <= |s|
    ensures s != [] && !IsAsciiWhitespace(s[0]) ==> n > 0
  {
    if s == [] || IsAsciiWhitespace(s[0]) then 0 else 1 + WordEnd(s[1..])
  }

  /** `s.split_ascii_whitespace().collect()`: the maximal runs of
      non-separators, in order; runs of separators (leading, trailing or
      between tokens) produce no token. */
  function SplitAsciiWhitespace(s: string): (r: seq<string>)
    ensures |r| <= |s|
    decreases |s|
  {
    if s == [] then []
    else if IsAsciiWhitespace(s[0]) then SplitAsciiWhitespace(s[1..])
    else
      var n := WordEnd(s);
      [s[..n]] + SplitAsciiWhitespace(s[n..])
  }

  /** The first word runs up to the first separator: everything before
      `WordEnd(s)` is a non-separator, and the character there (if any) is
      a separator. */
  lemma {:induction false} WordEndShape(s: string)
    ensures forall i :: 0 <= i < WordEnd(s) ==> !IsAsciiWhitespace(s[i])
    ensures WordEnd(s) < |s| ==> IsAsciiWhitespace(s[WordEnd(s)])
    decreases |s|
  {
    if s != [] && !IsAsciiWhitespace(s[0]) {
      WordEndShape(s[1..]);
    }
  }

  /** A string yields no token exactly when it is all separators. */
  lemma {:induction false} SplitNothing(s: string)
    ensures SplitAsciiWhitespace(s) == [] <==> AllAsciiWhitespace(s)
    decreases |s|
  {
    if s != [] {
      if IsAsciiWhitespace(s[0]) {
        SplitNothing(s[1..]);
        if AllAsciiWhitespace(s[1..]) {
          forall i | 0 <= i < |s| ensures IsAsciiWhitespace(s[i]) {
            if i > 0 { assert s[i] == s[1..][i - 1]; }
          }
        }
      }
    }
  }

  /** Every token is a word: non-empty and free of separators. */
  lemma {:induction false} SplitYieldsWords(s: string)
    ensures forall w :: w in SplitAsciiWhitespace(s) ==> IsWord(w)
    decreases |s|
  {
    if s != [] {
      if IsAsciiWhitespace(s[0]) {
        SplitYieldsWords(s[1..]);
      } else {
        var n := WordEnd(s);
        WordEndShape(s);
        SplitYieldsWords(s[n..]);
      }
    }
  }

  /** The tokens joined back with one space between neighbours. */
  function JoinWords(words: seq<string>): string {
    if words == [] then []
    else if |words| == 1 then words[0]
    else words[0] + " " + JoinWords(words[1..])
  }

  /** A word followed by a separator (or by nothing) ends exactly there. */
  lemma {:induction false} WordEndOfWord(w: string, t: string)
    requires IsWord(w)
    requires t == [] || IsAsciiWhitespace(t[0])
    ensures WordEnd(w + t) == |w|
    decreases |w|
  {
    assert (w + t)[0] == w[0];
    if |w| > 1 {
      assert (w + t)[1..] == w[1..] + t;
      WordEndOfWord(w[1..], t);
    } else {
      assert (w + t)[1..] == t;
    }
  }

  /** Appending text after a separator does not move the end of the first word. */
  lemma {:induction false} WordEndAppend(a: string, t: string)
    requires WordEnd(a) < |a|
    ensures WordEnd(a + t) == WordEnd(a)
    decreases |a|
  {
    assert (a + t)[0] == a[0];
    if !IsAsciiWhitespace(a[0]) {
      assert (a + t)[1..] == a[1..] + t;
      WordEndAppend(a[1..], t);
    }
  }

  /** Leading separators produce no token. */
  lemma {:induction false} SplitDropsLeading(sep: string, b: string)
    requires AllAsciiWhitespace(sep)
    ensures SplitAsciiWhitespace(sep + b) == SplitAsciiWhitespace(b)
    decreases |sep|
  {
    if sep != [] {
      assert (sep + b)[0] == sep[0] && IsAsciiWhitespace(sep[0]);
      assert (sep + b)[1..] == sep[1..] + b;
      assert AllAsciiWhitespace(sep[1..]) by {
        forall i | 0 <= i < |sep| - 1 ensures IsAsciiWhitespace(sep[1..][i]) {
          assert sep[1..][i] == sep[i + 1];
        }
      }
      SplitDropsLeading(sep[1..], b);
    } else {
      assert sep + b == b;
    }
  }

  /** The tokens of `JoinWords(words)` are `words`: joining is the inverse
      of splitting on token lists. */
  lemma {:induction false} SplitJoin(words: seq<string>)
    requires forall w :: w in words ==> IsWord(w)
    ensures SplitAsciiWhitespace(JoinWords(words)) == words
    decreases |words|
  {
    if words != [] {
      var w := words[0];
      assert w in words;
      var rest := words[1..];
      assert forall x :: x in rest ==> x in words;
      if |words| == 1 {
        assert JoinWords(words) == w + [];
        WordEndOfWord(w, []);
        assert w[..|w|] == w;
        assert w[|w|..] == [];
      } else {
        var tail := " " + JoinWords(rest);
        assert JoinWords(words) == w + tail;
        WordEndOfWord(w, tail);
        assert (w + tail)[..|w|] == w;
        assert (w + tail)[|w|..] == tail;
        assert tail[0] == ' ' && tail[1..] == JoinWords(rest);
        SplitJoin(rest);
      }
    }
  }

  /** A run of separators anywhere counts the same as a single space. */
  lemma {:induction false} SplitCollapsesSeparators(a: string, sep: string, b: string)
    requires |sep| > 0 && AllAsciiWhitespace(sep)
    ensures SplitAsciiWhitespace(a + sep + b) == SplitAsciiWhitespace(a + " " + b)
    decreases |a|
  {
    if a == [] {
      assert a + sep + b == sep + b;
      assert a + " " + b == " " + b;
      SplitDropsLeading(sep, b);
      assert (" " + b)[1..] == b;
    } else if IsAsciiWhitespace(a[0]) {
      assert (a + sep + b)[1..] == a[1..] + sep + b;
      assert (a + " " + b)[1..] == a[1..] + " " + b;
      SplitCollapsesSeparators(a[1..], sep, b);
    } else {
      var n := WordEnd(a);
      if n == |a| {
        WordEndShape(a);
        assert IsWord(a);
        assert a + sep + b == a + (sep + b);
        assert a + " " + b == a + (" " + b);
        WordEndOfWord(a, sep + b);
        WordEndOfWord(a, " " + b);
        assert (a + (sep + b))[..n] == a && (a + (sep + b))[n..] == sep + b;
        assert (a + (" " + b))[..n] == a && (a + (" " + b))[n..] == " " + b;
        SplitDropsLeading(sep, b);
        assert (" " + b)[1..] == b;
      } else {
        WordEndAppend(a, sep + b);
        WordEndAppend(a, " " + b);
        assert a + sep + b == a + (sep + b);
        assert a + " " + b == a + (" " + b);
        assert (a + (sep + b))[..n] == a[..n] && (a + (sep + b))[n..] == a[n..] + sep + b;
        assert (a + (" " + b))[..n] == a[..n] && (a + (" " + b))[n..] == a[n..] + " " + b;
        SplitCollapsesSeparators(a[n..], sep, b);
      }
    }
  }

  /** Trailing separators produce no token. */
  lemma {:induction false} SplitDropsTrailing(a: string, sep: string)
    requires AllAsciiWhitespace(sep)
    ensures SplitAsciiWhitespace(a + sep) == SplitAsciiWhitespace(a)
    decreases |a|
  {
    if a == [] {
      assert a + sep == sep + [];
      SplitDropsLeading(sep, []);
    } else if IsAsciiWhitespace(a[0]) {
      assert (a + sep)[1..] == a[1..] + sep;
      SplitDropsTrailing(a[1..], sep);
    } else {
      var n := WordEnd(a);
      if n == |a| {
        WordEndShape(a);
        assert IsWord(a);
        WordEndOfWord(a, sep);
        assert a[..n] == a && a[n..] == [];
        assert (a + sep)[..n] == a && (a + sep)[n..] == sep;
        assert sep == sep + [];
        SplitDropsLeading(sep, []);
      } else {
        WordEndAppend(a, sep);
        assert (a + sep)[..n] == a[..n] && (a + sep)[n..] == a[n..] + sep;
        SplitDropsTrailing(a[n..], sep);
      }
    }
  }

  // ---------------------------------------------------------------------
  // trim
  // ---------------------------------------------------------------------

  /** `str::trim_start`: drops leading whitespace. */
  function TrimStart(s: string): (r: string)
    ensures |r| <= |s|
  {
    if s != [] && IsWhitespace(s[0]) then TrimStart(s[1..]) else s
  }

  /** `str::trim_end`: drops trailing whitespace. */
  function TrimEnd(s: string): (r: string)
    ensures |r| <= |s|
  {
    if s != [] && IsWhitespace(s[|s| - 1]) then TrimEnd(s[..|s| - 1]) else s
  }

  /** `str::trim`: drops whitespace at both ends. */
  function Trim(s: string): (r: string)
    ensures |r| <= |s|
  {
    TrimEnd(TrimStart(s))
  }

  /** `trim_start` drops leading whitespace and nothing else: what it
      returns is a suffix, the part dropped is all whitespace, and what is
      left does not start with whitespace. */
  lemma {:induction false} TrimStartShape(s: string)
    ensures var r := TrimStart(s);
      && r == s[|s| - |r|..]
      && AllWhitespace(s[..|s| - |r|])
      && (r == [] || !IsWhitespace(r[0]))
    decreases |s|
  {
    if s != [] && IsWhitespace(s[0]) {
      var r := TrimStart(s[1..]);
      TrimStartShape(s[1..]);
      assert s[1..][..|s| - 1 - |r|] == s[1..|s| - |r|];
    }
  }

  /** `trim_end` drops trailing whitespace and nothing else. */
  lemma {:induction false} TrimEndShape(s: string)
    ensures var r := TrimEnd(s);
      && r == s[..|r|]
      && AllWhitespace(s[|r|..])
      && (r == [] || !IsWhitespace(r[|r| - 1]))
    decreases |s|
  {
    if s != [] && IsWhitespace(s[|s| - 1]) {
      var r := TrimEnd(s[..|s| - 1]);
      TrimEndShape(s[..|s| - 1]);
      assert s[..|s| - 1][|r|..] == s[|r|..|s| - 1];
    }
  }

  /** `trim` returns the piece of `s` left between a whitespace prefix and
      a whitespace suffix. */
  lemma TrimShape(s: string)
    ensures var r := Trim(s);
      exists i :: (0 <= i <= |s| - |r| && r == s[i..i + |r|]
                   && AllWhitespace(s[..i]) && AllWhitespace(s[i + |r|..]))
  {
    var t := TrimStart(s);
    var r := TrimEnd(t);
    TrimStartShape(s);
    TrimEndShape(t);
    var i := |s| - |t|;
    assert r == s[i..i + |r|];
    assert s[i + |r|..] == t[|r|..];
    assert AllWhitespace(s[..i]) && AllWhitespace(s[i + |r|..]);
  }

  /** `trim` leaves nothing exactly when the string is all whitespace. */
  lemma TrimNothing(s: string)
    ensures Trim(s) == [] <==> AllWhitespace(s)
  {
    var r := Trim(s);
    TrimShape(s);
    var i :| 0 <= i <= |s| - |r| && r == s[i..i + |r|]
             && AllWhitespace(s[..i]) && AllWhitespace(s[i + |r|..]);
    if r == [] {
      forall j | 0 <= j < |s| ensures IsWhitespace(s[j]) {
        if j < i { assert s[j] == s[..i][j]; } else { assert s[j] == s[i..][j - i]; }
      }
    } else {
      TrimEnds(s);
      assert r[0] == s[i];
    }
  }

  /** What `trim` returns has no whitespace at either end. */
  lemma TrimEnds(s: string)
    ensures var r := Trim(s);
      r == [] || (!IsWhitespace(r[0]) && !IsWhitespace(r[|r| - 1]))
  {
    var t := TrimStart(s);
    var r := TrimEnd(t);
    TrimStartShape(s);
    TrimEndShape(t);
    if r != [] {
      assert r[0] == t[0];
    }
  }

  /** Trimming a string padded with whitespace on both sides gives back the
      inner text when that text has no whitespace at its ends. */
  lemma {:induction false} TrimPadded(pre: string, x: string, post: string)
    requires AllWhitespace(pre) && AllWhitespace(post)
    requires x == [] || (!IsWhitespace(x[0]) && !IsWhitespace(x[|x| - 1]))
    ensures Trim(pre + x + post) == x
  {
    if x == [] {
      var s := pre + post;
      assert pre + x + post == s;
      assert AllWhitespace(s) by {
        forall i | 0 <= i < |s| ensures IsWhitespace(s[i]) {
          if i < |pre| { assert s[i] == pre[i]; } else { assert s[i] == post[i - |pre|]; }
        }
      }
      var t := TrimStart(s);
      TrimStartShape(s);
      assert t == [];
      assert TrimEnd(t) == [];
    } else {
      TrimStartPadded(pre, x + post);
      assert pre + x + post == pre + (x + post);
      assert (x + post)[0] == x[0];
      TrimEndPadded(x, post);
    }
  }

  lemma {:induction false} TrimStartPadded(pre: string, s: string)
    requires AllWhitespace(pre)
    requires s == [] || !IsWhitespace(s[0])
    ensures TrimStart(pre + s) == s
    decreases |pre|
  {
    if pre != [] {
      assert (pre + s)[0] == pre[0];
      assert (pre + s)[1..] == pre[1..] + s;
      TrimStartPadded(pre[1..], s);
    }
  }

  lemma {:induction false} TrimEndPadded(s: string, post: string)
    requires AllWhitespace(post)
    requires s == [] || !IsWhitespace(s[|s| - 1])
    ensures TrimEnd(s + post) == s
    decreases |post|
  {
    if post != [] {
      var p := post[..|post| - 1];
      assert (s + post)[|s + post| - 1] == post[|post| - 1];
      assert (s + post)[..|s + post| - 1] == s + p;
      TrimEndPadded(s, p);
    } else {
      assert s + post == s;
    }
  }

  /** Trimming twice is trimming once. */
  lemma TrimIdempotent(s: string)
    ensures Trim(Trim(s)) == Trim(s)
  {
    var r := Trim(s);
    TrimEnds(s);
    assert r == [] + r + [];
    TrimPadded([], r, []);
  }

  // ---------------------------------------------------------------------
  // Decimal digits
  // ---------------------------------------------------------------------

  predicate IsDigit(c: char) {
    '0' <= c <= '9'
  }

  predicate AllDigits(s: string) {
    forall i :: 0 <= i < |s| ==> IsDigit(s[i])
  }

  function DigitValue(c: char): (d: nat)
    requires IsDigit(c)
    ensures d < 10
  {
    (c as int) - ('0' as int)
  }

  function DigitChar(d: nat): (c: char)
    requires d < 10
    ensures IsDigit(c) && DigitValue(c) == d
  {
    (('0' as int) + d) as char
  }

  /** Reads the digits `ds` left to right into `acc`: `acc * 10^|ds| + value(ds)`. */
  function FoldDigits(acc: nat, ds: string): nat
    requires AllDigits(ds)
    decreases |ds|
  {
    if ds == [] then acc else FoldDigits(acc * 10 + DigitValue(ds[0]), ds[1..])
  }

  /** The value of a string of decimal digits (leading zeros allowed). */
  function DecimalValue(ds: string): nat
    requires AllDigits(ds)
  {
    FoldDigits(0, ds)
  }

  /** Reading never makes the accumulator smaller. */
  lemma {:induction false} FoldDigitsGrows(acc: nat, ds: string)
    requires AllDigits(ds)
    ensures FoldDigits(acc, ds) >= acc
    ensures ds != [] ==> FoldDigits(acc, ds) >= acc * 10 + DigitValue(ds[0])
    decreases |ds|
  {
    if ds != [] {
      FoldDigitsGrows(acc * 10 + DigitValue(ds[0]), ds[1..]);
    }
  }

  /** One more digit at the end multiplies by ten and adds it. */
  lemma {:induction false} FoldDigitsSnoc(acc: nat, ds: string, c: char)
    requires AllDigits(ds) && IsDigit(c)
    ensures AllDigits(ds + [c])
    ensures FoldDigits(acc, ds + [c]) == FoldDigits(acc, ds) * 10 + DigitValue(c)
    decreases |ds|
  {
    if ds == [] {
      assert ([] + [c])[1..] == [];
    } else {
      assert (ds + [c])[0] == ds[0];
      assert (ds + [c])[1..] == ds[1..] + [c];
      FoldDigitsSnoc(acc * 10 + DigitValue(ds[0]), ds[1..], c);
    }
  }

  /** `format!("{}", n)`: the shortest decimal rendering of `n` (no sign, no
      leading zero unless `n` is zero); it reads back as `n`. */
  function NatToString(n: nat): (s: string)
    ensures |s| > 0 && AllDigits(s)
    ensures s[0] != '0' || n == 0
    ensures DecimalValue(s) == n
    decreases n
  {
    if n < 10 then
      assert FoldDigits(0, [DigitChar(n)]) == FoldDigits(n, []);
      [DigitChar(n)]
    else
      var front := NatToString(n / 10);
      FoldDigitsSnoc(0, front, DigitChar(n % 10));
      front + [DigitChar(n % 10)]
  }

  /** Distinct numbers render differently. */
  lemma NatToStringInjective(m: nat, n: nat)
    requires NatToString(m) == NatToString(n)
    ensures m == n
  {
  }

  // ---------------------------------------------------------------------
  // str::parse::<u32>
  // ---------------------------------------------------------------------

  const U32_LIMIT: nat := 0x1_0000_0000

  /** Values of Rust's `u32`. */
  type U32 = n: nat | n < U32_LIMIT

  /** The `IntErrorKind`s `parse::<u32>` can report. */
  datatype IntErrorKind = Empty | InvalidDigit | PosOverflow

  /** The `Display` text of a `ParseIntError` of each kind. */
  function IntErrorText(kind: IntErrorKind): (t: string)
    ensures |t| > 0
  {
    match kind
    case Empty => "cannot parse integer from empty string"
    case InvalidDigit => "invalid digit found in string"
    case PosOverflow => "number too large to fit in target type"
  }

  /** The digits after the optional leading `+`; a `-` is not stripped, as
      `u32` is unsigned. */
  function Unsigned(s: string): (ds: string)
    ensures |ds| <= |s|
  {
    if |s| > 0 && s[0] == '+' then s[1..] else s
  }

  /** What `parse::<u32>` accepts: an optional `+`, then one or more decimal
      digits whose value fits in 32 bits. */
  predicate IsU32Literal(s: string) {
    var ds := Unsigned(s);
    |ds| > 0 && AllDigits(ds) && DecimalValue(ds) < U32_LIMIT
  }

  /** The digit loop of `u32::from_str_radix`: left to right, a character
      that is not a digit is `InvalidDigit`, a value that leaves the 32-bit
      range is `PosOverflow`, whichever comes first. */
  function AccumulateU32(acc: U32, ds: string): Result<U32, IntErrorKind>
    decreases |ds|
  {
    if ds == [] then Ok(acc)
    else if !IsDigit(ds[0]) then Err(InvalidDigit)
    else if acc * 10 + DigitValue(ds[0]) >= U32_LIMIT then Err(PosOverflow)
    else AccumulateU32(acc * 10 + DigitValue(ds[0]), ds[1..])
  }

  lemma {:induction false} AccumulateDigits(acc: U32, ds: string)
    ensures AccumulateU32(acc, ds).Ok? <==> AllDigits(ds) && FoldDigits(acc, ds) < U32_LIMIT
    ensures AccumulateU32(acc, ds).Ok? ==> AccumulateU32(acc, ds).value == FoldDigits(acc, ds)
    ensures AccumulateU32(acc, ds) != Err(Empty)
    ensures AllDigits(ds) && FoldDigits(acc, ds) >= U32_LIMIT ==> AccumulateU32(acc, ds) == Err(PosOverflow)
    decreases |ds|
  {
    if ds != [] {
      if !IsDigit(ds[0]) {
        assert !AllDigits(ds);
      } else {
        var next := acc * 10 + DigitValue(ds[0]);
        assert AllDigits(ds) <==> AllDigits(ds[1..]) by {
          if AllDigits(ds[1..]) {
            forall i | 0 <= i < |ds| ensures IsDigit(ds[i]) {
              if i > 0 { assert ds[i] == ds[1..][i - 1]; }
            }
          }
        }
        if next >= U32_LIMIT {
          if AllDigits(ds) { FoldDigitsGrows(next, ds[1..]); }
        } else {
          AccumulateDigits(next, ds[1..]);
        }
      }
    }
  }

  /** `s.parse::<u32>()`.  It succeeds exactly on the u32 literals, with
      their value; the empty string, and only it, is `Empty`; digits whose
      value does not fit are `PosOverflow`; a bare sign, and anything
      starting with `-`, is `InvalidDigit`. */
  function ParseU32(s: string): (r: Result<U32, IntErrorKind>)
    ensures r.Ok? <==> IsU32Literal(s)
    ensures r.Ok? ==> r.value == DecimalValue(Unsigned(s))
    ensures r == Err(Empty) <==> s == []
    ensures |Unsigned(s)| > 0 && AllDigits(Unsigned(s)) && DecimalValue(Unsigned(s)) >= U32_LIMIT ==>
      r == Err(PosOverflow)
    ensures s == "+" || s == "-" ==> r == Err(InvalidDigit)
    ensures |s| > 0 && s[0] == '-' ==> r == Err(InvalidDigit)
  {
    if s == [] then Err(Empty)
    else if (s[0] == '+' || s[0] == '-') && |s| == 1 then Err(InvalidDigit)
    else
      var ds := Unsigned(s);
      AccumulateDigits(0, ds);
      AccumulateU32(0, ds)
  }

  /** Rendering a u32 and parsing it back gives the same number. */
  lemma ParseRendered(n: U32)
    ensures ParseU32(NatToString(n)) == Ok(n)
    ensures ParseU32("+" + NatToString(n)) == Ok(n)
  {
    var s := NatToString(n);
    assert Unsigned(s) == s;
    assert ("+" + s)[1..] == s;
  }
}
