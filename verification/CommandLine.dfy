/** Windows command-line construction, and the Microsoft C runtime rules that
    take the line apart again. */
module CommandLine {
  import opened Common

  type Text = seq<Unit>

  const TAB: Unit := 0x09
  const SPACE: Unit := 0x20
  const QUOTE: Unit := 0x22
  const BACKSLASH: Unit := 0x5C
  const COMMAND_LINE_LIMIT: nat := 32_767

  datatype Field = ProgramPath | FirstArgument | LaterArgument

  datatype LaunchError = InteriorNul(field: Field) | CommandLineTooLong

  predicate IsBlank(u: Unit) { u == SPACE || u == TAB }

  predicate RequiresQuotes(input: Text)
  {
    input == [] || exists i :: 0 <= i < |input| && (IsBlank(input[i]) || input[i] == QUOTE)
  }

  function Slashes(n: nat): (s: Text)
    ensures |s| == n
  {
    seq(n, _ => BACKSLASH)
  }

  // ---------------------------------------------------------------- quoting

  /** Everything the quoting loop still emits when `pending` backslashes have
      been counted but not written, closing quote included. */
  function Escaped(input: Text, pending: nat): Text
    decreases |input|
  {
    if input == [] then Slashes(2 * pending) + [QUOTE]
    else if input[0] == BACKSLASH then Escaped(input[1..], pending + 1)
    else if input[0] == QUOTE then Slashes(2 * pending + 1) + [QUOTE] + Escaped(input[1..], 0)
    else Slashes(pending) + [input[0]] + Escaped(input[1..], 0)
  }

  function Quoted(input: Text): Text
  {
    if RequiresQuotes(input) then [QUOTE] + Escaped(input, 0) else input
  }

  /** The arguments as they follow the program on the line. */
  function Tail(arguments: seq<Text>): Text
  {
    if arguments == [] then [] else [SPACE] + Quoted(arguments[0]) + Tail(arguments[1..])
  }

  function Line(program: Text, arguments: seq<Text>): Text
  {
    Quoted(program) + Tail(arguments)
  }

  method NeedsQuoting(input: Text) returns (needed: bool)
    ensures needed == RequiresQuotes(input)
  {
    if |input| == 0 { return true; }
    for i := 0 to |input|
      invariant forall j :: 0 <= j < i ==> !IsBlank(input[j]) && input[j] != QUOTE
    {
      if IsBlank(input[i]) || input[i] == QUOTE { return true; }
    }
    return false;
  }

  method QuoteArgument(input: Text, field: Field) returns (r: Result<Text, LaunchError>)
    ensures r == if 0 in input then Err(InteriorNul(field)) else Ok(Quoted(input))
  {
    if 0 in input { return Err(InteriorNul(field)); }
    var needed := NeedsQuoting(input);
    if !needed { return Ok(input); }

    var quoted := [QUOTE];
    var backslashes := 0;
    for i := 0 to |input|
      invariant backslashes >= 0
      invariant quoted + Escaped(input[i..], backslashes) == [QUOTE] + Escaped(input, 0)
    {
      assert input[i..][1..] == input[i + 1..];
      ghost var before := quoted;
      if input[i] == BACKSLASH {
        backslashes := backslashes + 1;
      } else if input[i] == QUOTE {
        quoted := quoted + Slashes(backslashes * 2 + 1) + [QUOTE];
        assert before + (Slashes(backslashes * 2 + 1) + [QUOTE] + Escaped(input[i + 1..], 0))
            == quoted + Escaped(input[i + 1..], 0);
        backslashes := 0;
      } else {
        quoted := quoted + Slashes(backslashes) + [input[i]];
        assert before + (Slashes(backslashes) + [input[i]] + Escaped(input[i + 1..], 0))
            == quoted + Escaped(input[i + 1..], 0);
        backslashes := 0;
      }
    }
    assert input[|input|..] == [];
    assert quoted + Slashes(backslashes * 2) + [QUOTE] == quoted + (Slashes(2 * backslashes) + [QUOTE]);
    quoted := quoted + Slashes(backslashes * 2) + [QUOTE];
    return Ok(quoted);
  }

  /** Which error wins is part of the contract: fields are checked left to
      right and the length limit, which counts the final NUL, comes last. */
  method BuildCommandLine(program: Text, arguments: seq<Text>) returns (r: Result<Text, LaunchError>)
    ensures r.Ok? <==>
              && 0 !in program
              && (forall k :: 0 <= k < |arguments| ==> 0 !in arguments[k])
              && |Line(program, arguments)| + 1 <= COMMAND_LINE_LIMIT
    ensures r.Ok? ==> r.value == Line(program, arguments) + [0]
    ensures r == Err(InteriorNul(ProgramPath)) <==> 0 in program
    ensures r == Err(InteriorNul(FirstArgument)) <==> 0 !in program && arguments != [] && 0 in arguments[0]
    ensures r == Err(InteriorNul(LaterArgument)) <==>
              && 0 !in program && arguments != [] && 0 !in arguments[0]
              && exists k :: 1 <= k < |arguments| && 0 in arguments[k]
    ensures r == Err(CommandLineTooLong) <==>
              && 0 !in program
              && (forall k :: 0 <= k < |arguments| ==> 0 !in arguments[k])
              && |Line(program, arguments)| + 1 > COMMAND_LINE_LIMIT
  {
    hide Quoted;
    var first := QuoteArgument(program, ProgramPath);
    if first.Err? { return first; }
    var line := first.value;
    for i := 0 to |arguments|
      invariant forall k :: 0 <= k < i ==> 0 !in arguments[k]
      invariant line + Tail(arguments[i..]) == Line(program, arguments)
    {
      assert arguments[i..][1..] == arguments[i + 1..];
      line := line + [SPACE];
      var next := QuoteArgument(arguments[i], if i == 0 then FirstArgument else LaterArgument);
      if next.Err? { return next; }
      line := line + next.value;
    }
    line := line + [0];
    if |line| > COMMAND_LINE_LIMIT { return Err(CommandLineTooLong); }
    return Ok(line);
  }

  // ------------------------------------- "Parsing C command-line arguments"

  datatype Piece = Piece(argument: Text, rest: Text)

  function Prepend(head: Text, p: Piece): Piece
  {
    Piece(head + p.argument, p.rest)
  }

  /** argv[0]: quotes delimit and are dropped, backslashes are ordinary. */
  function ProgramName(s: Text, quoted: bool): (p: Piece)
    ensures QUOTE !in p.argument
    decreases |s|
  {
    if s == [] then Piece([], [])
    else if s[0] == QUOTE then ProgramName(s[1..], !quoted)
    else if !quoted && IsBlank(s[0]) then Piece([], s)
    else Prepend([s[0]], ProgramName(s[1..], quoted))
  }

  /** Any later argument, after `slashes` backslashes and inside quotes when
      `quoted`: 2n backslashes before a quote are n backslashes and a
      delimiter, 2n+1 are n backslashes and a literal quote, and a doubled
      quote inside quotes is a literal quote. */
  function Argument(s: Text, slashes: nat, quoted: bool): (p: Piece)
    ensures |p.rest| <= |s|
    ensures s != [] && (quoted || !IsBlank(s[0])) ==> |p.rest| < |s|
    decreases |s|
  {
    if s == [] then Piece(Slashes(slashes), [])
    else if s[0] == BACKSLASH then Argument(s[1..], slashes + 1, quoted)
    else if s[0] == QUOTE then
      if slashes % 2 == 1 then
        Prepend(Slashes(slashes / 2) + [QUOTE], Argument(s[1..], 0, quoted))
      else if quoted && |s| > 1 && s[1] == QUOTE then
        Prepend(Slashes(slashes / 2) + [QUOTE], Argument(s[2..], 0, true))
      else
        Prepend(Slashes(slashes / 2), Argument(s[1..], 0, !quoted))
    else if !quoted && IsBlank(s[0]) then Piece(Slashes(slashes), s)
    else Prepend(Slashes(slashes) + [s[0]], Argument(s[1..], 0, quoted))
  }

  function Arguments(s: Text): seq<Text>
    decreases |s|
  {
    if s == [] then []
    else if IsBlank(s[0]) then Arguments(s[1..])
    else
      var p := Argument(s, 0, false);
      [p.argument] + Arguments(p.rest)
  }

  /** The text in front of the first NUL. */
  function CString(line: Text): Text
  {
    if line == [] || line[0] == 0 then [] else [line[0]] + CString(line[1..])
  }

  function Split(line: Text): seq<Text>
  {
    var text := CString(line);
    var p := ProgramName(text, false);
    [p.argument] + Arguments(p.rest)
  }

  // ------------------------------------------------------------- round trip

  lemma {:induction false} ArgumentTakesSlashes(n: nat, s: Text, slashes: nat, quoted: bool)
    ensures Argument(Slashes(n) + s, slashes, quoted) == Argument(s, slashes + n, quoted)
    decreases n
  {
    if n == 0 {
      assert Slashes(0) + s == s;
    } else {
      assert (Slashes(n) + s)[1..] == Slashes(n - 1) + s;
      ArgumentTakesSlashes(n - 1, s, slashes + 1, quoted);
    }
  }

  ghost predicate EndsArgument(rest: Text) { rest == [] || IsBlank(rest[0]) }

  lemma {:induction false} EscapedReadsBack(input: Text, pending: nat, rest: Text)
    requires EndsArgument(rest)
    ensures Argument(Escaped(input, pending) + rest, 0, true) == Piece(Slashes(pending) + input, rest)
    decreases |input|
  {
    hide Argument;
    if input == [] {
      assert Escaped(input, pending) + rest == Slashes(2 * pending) + ([QUOTE] + rest);
      ClosingQuoteReads(pending, rest);
      assert Slashes(pending) + input == Slashes(pending);
    } else {
      var c, tail := input[0], input[1..];
      if c == BACKSLASH {
        EscapedReadsBack(tail, pending + 1, rest);
        assert Slashes(pending + 1) + tail == Slashes(pending) + input;
      } else {
        EscapedReadsBack(tail, 0, rest);
        var after := Escaped(tail, 0) + rest;
        var n := if c == QUOTE then 2 * pending + 1 else pending;
        assert Escaped(input, pending) + rest == Slashes(n) + ([c] + after);
        EscapedUnitReads(c, pending, after);
        assert Slashes(pending) + [c] + (Slashes(0) + tail) == Slashes(pending) + input;
      }
    }
  }

  lemma ClosingQuoteReads(pending: nat, rest: Text)
    requires EndsArgument(rest)
    ensures Argument(Slashes(2 * pending) + ([QUOTE] + rest), 0, true) == Piece(Slashes(pending), rest)
  {
    ArgumentTakesSlashes(2 * pending, [QUOTE] + rest, 0, true);
    assert ([QUOTE] + rest)[1..] == rest;
    assert Slashes(pending) + Slashes(0) == Slashes(pending);
  }

  lemma EscapedUnitReads(c: Unit, pending: nat, after: Text)
    requires c != BACKSLASH
    ensures Argument(Slashes(if c == QUOTE then 2 * pending + 1 else pending) + ([c] + after), 0, true)
         == Prepend(Slashes(pending) + [c], Argument(after, 0, true))
  {
    var n := if c == QUOTE then 2 * pending + 1 else pending;
    ArgumentTakesSlashes(n, [c] + after, 0, true);
    assert ([c] + after)[1..] == after;
  }

  lemma {:induction false} PlainReadsBack(input: Text, slashes: nat, rest: Text)
    requires forall i :: 0 <= i < |input| ==> !IsBlank(input[i]) && input[i] != QUOTE
    requires EndsArgument(rest)
    ensures Argument(input + rest, slashes, false) == Piece(Slashes(slashes) + input, rest)
    decreases |input|
  {
    if input == [] {
      assert input + rest == rest;
    } else {
      var c, tail := input[0], input[1..];
      assert (input + rest)[1..] == tail + rest;
      if c == BACKSLASH {
        PlainReadsBack(tail, slashes + 1, rest);
        assert Slashes(slashes + 1) + tail == Slashes(slashes) + input;
      } else {
        PlainReadsBack(tail, 0, rest);
        assert Slashes(slashes) + [c] + (Slashes(0) + tail) == Slashes(slashes) + input;
      }
    }
  }

  lemma QuotedReadsBack(input: Text, rest: Text)
    requires EndsArgument(rest)
    ensures Argument(Quoted(input) + rest, 0, false) == Piece(input, rest)
    ensures Quoted(input) != [] && !IsBlank(Quoted(input)[0])
  {
    if RequiresQuotes(input) {
      EscapedReadsBack(input, 0, rest);
      assert Quoted(input) + rest == [QUOTE] + (Escaped(input, 0) + rest);
      assert ([QUOTE] + (Escaped(input, 0) + rest))[1..] == Escaped(input, 0) + rest;
    } else {
      PlainReadsBack(input, 0, rest);
    }
    assert Slashes(0) + input == input;
  }

  lemma ArgumentsReadOne(input: Text, rest: Text)
    requires EndsArgument(rest)
    ensures Arguments([SPACE] + (Quoted(input) + rest)) == [input] + Arguments(rest)
  {
    var body := Quoted(input) + rest;
    QuotedReadsBack(input, rest);
    assert ([SPACE] + body)[1..] == body;
    assert Arguments([SPACE] + body) == Arguments(body);
    assert body[0] == Quoted(input)[0];
  }

  lemma {:induction false} TailReadsBack(arguments: seq<Text>)
    ensures Arguments(Tail(arguments)) == arguments
    ensures EndsArgument(Tail(arguments))
  {
    hide Argument, Escaped, RequiresQuotes;
    if arguments != [] {
      var rest := Tail(arguments[1..]);
      TailReadsBack(arguments[1..]);
      ArgumentsReadOne(arguments[0], rest);
      assert Tail(arguments) == [SPACE] + (Quoted(arguments[0]) + rest);
      assert [arguments[0]] + arguments[1..] == arguments;
    }
  }

  // ----------------------------------------------------------- program name

  /** Backslashes at the end of the text, `pending` of them read already. */
  function Trailing(input: Text, pending: nat): nat
  {
    if input == [] then pending
    else Trailing(input[1..], if input[0] == BACKSLASH then pending + 1 else 0)
  }

  lemma {:induction false} TrailingIsZeroUnlessLast(input: Text, pending: nat)
    requires input != []
    ensures Trailing(input, pending) > 0 <==> input[|input| - 1] == BACKSLASH
    decreases |input|
  {
    if |input| > 1 {
      TrailingIsZeroUnlessLast(input[1..], if input[0] == BACKSLASH then pending + 1 else 0);
    } else {
      assert input[1..] == [];
    }
  }

  lemma {:induction false} EscapedWithoutQuotes(input: Text, pending: nat)
    requires QUOTE !in input
    ensures Escaped(input, pending)
         == Slashes(pending) + input + Slashes(Trailing(input, pending)) + [QUOTE]
    decreases |input|
  {
    if input == [] {
      assert Slashes(2 * pending) == Slashes(pending) + [] + Slashes(pending);
    } else {
      var c, tail := input[0], input[1..];
      assert forall u :: u in tail ==> u in input;
      if c == BACKSLASH {
        EscapedWithoutQuotes(tail, pending + 1);
        assert Slashes(pending + 1) + tail == Slashes(pending) + input;
      } else {
        EscapedWithoutQuotes(tail, 0);
        assert Slashes(pending) + [c] + (Slashes(0) + tail) == Slashes(pending) + input;
      }
    }
  }

  lemma {:induction false} ProgramNameTakes(body: Text, rest: Text, quoted: bool)
    requires QUOTE !in body
    requires quoted || forall i :: 0 <= i < |body| ==> !IsBlank(body[i])
    ensures ProgramName(body + rest, quoted) == Prepend(body, ProgramName(rest, quoted))
    decreases |body|
  {
    if body == [] {
      assert body + rest == rest;
      assert [] + ProgramName(rest, quoted).argument == ProgramName(rest, quoted).argument;
    } else {
      assert (body + rest)[1..] == body[1..] + rest;
      assert forall u :: u in body[1..] ==> u in body;
      ProgramNameTakes(body[1..], rest, quoted);
      assert [body[0]] + (body[1..] + ProgramName(rest, quoted).argument)
          == body + ProgramName(rest, quoted).argument;
    }
  }

  /** What the runtime reads as argv[0] from a quoted quote-free path. */
  lemma QuotedProgramReadsAs(program: Text, rest: Text)
    requires QUOTE !in program && EndsArgument(rest)
    ensures ProgramName(Quoted(program) + rest, false)
         == Piece(if RequiresQuotes(program) then program + Slashes(Trailing(program, 0)) else program, rest)
  {
    if RequiresQuotes(program) {
      EscapedWithoutQuotes(program, 0);
      assert Slashes(0) + program == program;
      hide Escaped, Trailing, RequiresQuotes;
      var body := program + Slashes(Trailing(program, 0));
      assert Quoted(program) + rest == [QUOTE] + (body + ([QUOTE] + rest));
      assert ([QUOTE] + (body + ([QUOTE] + rest)))[1..] == body + ([QUOTE] + rest);
      ProgramNameTakes(body, [QUOTE] + rest, true);
      assert ([QUOTE] + rest)[1..] == rest;
      assert body + [] == body;
    } else {
      ProgramNameTakes(program, rest, false);
      assert program + [] == program;
    }
  }

  /** The program paths that survive: no quote, and no trailing backslash
      inside a quoted path. */
  predicate ProgramSafe(program: Text)
  {
    && QUOTE !in program
    && (RequiresQuotes(program) && program != [] ==> program[|program| - 1] != BACKSLASH)
  }

  lemma {:induction false} CStringOfNulFree(text: Text)
    requires 0 !in text
    ensures CString(text + [0]) == text
  {
    if text != [] {
      assert (text + [0])[1..] == text[1..] + [0];
      CStringOfNulFree(text[1..]);
    }
  }

  lemma {:induction false} EscapedIsNulFree(input: Text, pending: nat)
    requires 0 !in input
    ensures 0 !in Escaped(input, pending)
    decreases |input|
  {
    if input != [] {
      EscapedIsNulFree(input[1..], if input[0] == BACKSLASH then pending + 1 else 0);
    }
  }

  lemma {:induction false} TailIsNulFree(arguments: seq<Text>)
    requires forall k :: 0 <= k < |arguments| ==> 0 !in arguments[k]
    ensures 0 !in Tail(arguments)
  {
    if arguments != [] {
      EscapedIsNulFree(arguments[0], 0);
      TailIsNulFree(arguments[1..]);
    }
  }

  /** Main result. The NUL-terminated line handed to CreateProcessW splits
      back into exactly the program and the arguments, whatever quotes,
      blanks, empty strings and backslash runs the arguments hold, if and only
      if the program path is safe. */
  lemma CommandLineRoundTrip(program: Text, arguments: seq<Text>)
    requires 0 !in program
    requires forall k :: 0 <= k < |arguments| ==> 0 !in arguments[k]
    ensures Split(Line(program, arguments) + [0]) == [program] + arguments <==> ProgramSafe(program)
  {
    EscapedIsNulFree(program, 0);
    TailIsNulFree(arguments);
    CStringOfNulFree(Line(program, arguments));
    TailReadsBack(arguments);
    var line := Line(program, arguments);
    assert Split(line + [0])[0] == ProgramName(line, false).argument;
    assert ([program] + arguments)[0] == program;
    if QUOTE !in program {
      QuotedProgramReadsAs(program, Tail(arguments));
      if program != [] { TrailingIsZeroUnlessLast(program, 0); }
      if ProgramSafe(program) {
        assert program + Slashes(0) == program;
      } else {
        assert |ProgramName(line, false).argument| > |program|;
      }
    }
  }

  /** The failing family is not empty: a directory-like path with a space. */
  lemma UnsafeProgramExample()
    ensures var program := [0x41, SPACE, BACKSLASH];
            Split(Line(program, []) + [0]) != [program]
  {
    var program: Text := [0x41, SPACE, BACKSLASH];
    assert IsBlank(program[1]);
    CommandLineRoundTrip(program, []);
    assert [program] + [] == [program];
  }

  /** The characters the rules speak of, and the limit of CreateProcessW. */
  lemma UnitsAreAsNamed()
    ensures TAB == '\t' as int && SPACE == ' ' as int && QUOTE == '"' as int && BACKSLASH == '\\' as int
    ensures COMMAND_LINE_LIMIT == 32_767
  {
  }
}
