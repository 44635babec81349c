/** Building a Windows command line, and the C runtime's rules for taking it apart again. */
module CommandLine {
  import opened Sequences

  const COMMAND_LINE_LIMIT := 32767

  predicate Blank(c: char) {
    c == ' ' || c == '\t'
  }

  predicate NulFree(text: string) {
    '\0' !in text
  }

  function Slashes(n: nat): (s: string)
    ensures |s| == n
  {
    seq(n, _ => '\\')
  }

  // Quoting

  predicate NeedsQuotes(argument: string) {
    argument == "" || exists i | 0 <= i < |argument| :: Blank(argument[i]) || argument[i] == '\"'
  }

  /** What is still to be written for the rest of an argument after `backslashes` unwritten ones. */
  function QuoteRest(rest: string, backslashes: nat): string {
    if rest == "" then Slashes(2 * backslashes) + "\""
    else if rest[0] == '\\' then QuoteRest(rest[1..], backslashes + 1)
    else if rest[0] == '\"' then Slashes(2 * backslashes + 1) + "\"" + QuoteRest(rest[1..], 0)
    else Slashes(backslashes) + [rest[0]] + QuoteRest(rest[1..], 0)
  }

  function Quote(argument: string): string {
    if NeedsQuotes(argument) then "\"" + QuoteRest(argument, 0) else argument
  }

  method QuoteWindowsCrtArgument(argument: string) returns (result: string)
    ensures result == Quote(argument)
  {
    if !NeedsQuotes(argument) {
      return argument;
    }
    result := "\"";
    var backslashes := 0;
    for i := 0 to |argument|
      invariant result + QuoteRest(argument[i..], backslashes) == "\"" + QuoteRest(argument, 0)
    {
      var value := argument[i];
      assert argument[i..][1..] == argument[i + 1..];
      if value == '\\' {
        backslashes := backslashes + 1;
        continue;
      }
      if value == '\"' {
        result := result + Slashes(backslashes * 2 + 1);
        result := result + [value];
        backslashes := 0;
        continue;
      }
      result := result + Slashes(backslashes);
      backslashes := 0;
      result := result + [value];
    }
    assert argument[|argument|..] == "";
    result := result + Slashes(backslashes * 2);
    result := result + "\"";
  }

  // The C runtime's parser, by the rules of "Parsing C command-line arguments"

  function LeadingSlashes(text: string): (n: nat)
    ensures n <= |text| && text[..n] == Slashes(n)
    ensures n < |text| ==> text[n] != '\\'
  {
    if text == "" || text[0] != '\\' then 0 else 1 + LeadingSlashes(text[1..])
  }

  datatype Step = End | Take(literal: string, consumed: nat, quoted: bool)

  /** Backslashes are literal unless a double quote follows: then every pair stands for one, and
      an odd one makes the quote literal.  A quote opens or closes a quoted part; inside one, a
      doubled quote is literal and blanks do not end the argument. */
  function NextStep(text: string, quoted: bool): (step: Step)
    ensures step.Take? ==> 0 < step.consumed <= |text|
    ensures step.End? ==> text == "" || (!quoted && Blank(text[0]))
  {
    var n := LeadingSlashes(text);
    if 0 < n < |text| && text[n] == '\"' then
      if n % 2 == 0 then Take(Slashes(n / 2), n, quoted)
      else Take(Slashes(n / 2) + ['\"'], n + 1, quoted)
    else if n > 0 then Take(Slashes(n), n, quoted)
    else if text == "" then End
    else if text[0] == '\"' then
      if quoted && |text| > 1 && text[1] == '\"' then Take(['\"'], 2, true) else Take([], 1, !quoted)
    else if !quoted && Blank(text[0]) then End
    else Take([text[0]], 1, quoted)
  }

  /** One argument and the text after it. */
  function ParseArgument(text: string, quoted: bool): (r: (string, string))
    ensures |r.1| <= |text|
    ensures text != "" && (quoted || !Blank(text[0])) ==> |r.1| < |text|
    decreases |text|
  {
    var step := NextStep(text, quoted);
    if step.End? then ([], text)
    else
      var (argument, rest) := ParseArgument(text[step.consumed..], step.quoted);
      (step.literal + argument, rest)
  }

  function SkipBlanks(text: string): (rest: string)
    ensures |rest| <= |text| && (rest != "" ==> !Blank(rest[0]))
  {
    if text != "" && Blank(text[0]) then SkipBlanks(text[1..]) else text
  }

  function ParseArguments(text: string): seq<string>
    decreases |text|
  {
    var start := SkipBlanks(text);
    if start == "" then []
    else
      var (arg, rest) := ParseArgument(start, false);
      [arg] + ParseArguments(rest)
  }

  /** The program name knows quoted parts but no escapes. */
  function ParseProgram(text: string, quoted: bool): (r: (string, string))
    ensures |r.1| <= |text|
  {
    if text == "" then ("", "")
    else if text[0] == '\"' then ParseProgram(text[1..], !quoted)
    else if !quoted && Blank(text[0]) then ("", text)
    else
      var (name, rest) := ParseProgram(text[1..], quoted);
      ([text[0]] + name, rest)
  }

  function ParseCommandLine(line: string): seq<string> {
    var (program, rest) := ParseProgram(line, false);
    [program] + ParseArguments(rest)
  }

  // Building

  /** The quoted arguments, each after one blank. */
  function Tail(arguments: seq<string>): string {
    if arguments == [] then ""
    else Tail(arguments[..|arguments| - 1]) + " " + Quote(arguments[|arguments| - 1])
  }

  function Line(executable: string, arguments: seq<string>): string {
    Quote(executable) + Tail(arguments)
  }

  function RawLine(executable: string, rawTail: string): string {
    Quote(executable) + (if rawTail == "" then "" else " " + rawTail)
  }

  datatype BuildError = ExecutableEmpty | ArgumentNul | CommandLineTooLong

  datatype BuildResult =
    | Built(line: string, codeUnitsIncludingNul: nat)
    | Refused(error: BuildError, argumentIndex: nat)

  predicate Fits(line: string) {
    |line| + 1 <= COMMAND_LINE_LIMIT
  }

  /** Why `arguments[k]` is the first one that cannot be appended. */
  ghost predicate FailsAt(executable: string, arguments: seq<string>, k: nat, error: BuildError)
    requires k < |arguments|
  {
    && (forall j | 0 <= j < k :: NulFree(arguments[j]))
    && (k > 0 ==> Fits(Line(executable, arguments[..k])))
    && match error
       case ArgumentNul => !NulFree(arguments[k])
       case CommandLineTooLong => NulFree(arguments[k]) && !Fits(Line(executable, arguments[..k + 1]))
       case ExecutableEmpty => false
  }

  lemma QuoteIsNotEmpty(argument: string)
    ensures Quote(argument) != ""
  {}

  /** Main result: the build succeeds exactly for a non-empty program and texts free of NUL that
      fit; a refusal names the first argument at fault.  `room` is a natural number: the size
      arithmetic never goes below zero. */
  method BuildWindowsCommandLine(executable: string, arguments: seq<string>) returns (result: BuildResult)
    ensures result.Built? <==>
              && executable != "" && NulFree(executable)
              && (forall k | 0 <= k < |arguments| :: NulFree(arguments[k]))
              && Fits(Line(executable, arguments))
    ensures result.Built? ==> result == Built(Line(executable, arguments), |Line(executable, arguments)| + 1)
    ensures result.Refused? ==>
              if executable == "" then result == Refused(ExecutableEmpty, 0)
              else if !NulFree(executable) then result == Refused(ArgumentNul, 0)
              else if arguments == [] then result == Refused(CommandLineTooLong, 0)
              else 0 < result.argumentIndex <= |arguments|
                   && FailsAt(executable, arguments, result.argumentIndex - 1, result.error)
  {
    if executable == "" {
      return Refused(ExecutableEmpty, 0);
    }
    if !NulFree(executable) {
      return Refused(ArgumentNul, 0);
    }
    var line := QuoteWindowsCrtArgument(executable);
    assert Line(executable, arguments[..0]) == line;
    for index := 0 to |arguments|
      invariant line == Line(executable, arguments[..index])
      invariant forall j | 0 <= j < index :: NulFree(arguments[j])
      invariant index > 0 ==> Fits(line)
    {
      var argumentIndex := index + 1;
      if !NulFree(arguments[index]) {
        return Refused(ArgumentNul, argumentIndex);
      }
      var encoded := QuoteWindowsCrtArgument(arguments[index]);
      QuoteIsNotEmpty(arguments[index]);
      LineGrows(executable, arguments, index);
      if |line| > COMMAND_LINE_LIMIT - 1 - 1 {
        LongPrefixIsTooLong(executable, arguments, index + 1);
        return Refused(CommandLineTooLong, argumentIndex);
      }
      var room: nat := COMMAND_LINE_LIMIT - 1 - |line| - 1;
      if |encoded| > room {
        LongPrefixIsTooLong(executable, arguments, index + 1);
        return Refused(CommandLineTooLong, argumentIndex);
      }
      line := line + " ";
      line := line + encoded;
    }
    assert arguments[..|arguments|] == arguments;
    var codeUnits := |line| + 1;
    if codeUnits > COMMAND_LINE_LIMIT {
      return Refused(CommandLineTooLong, 0);
    }
    result := Built(line, codeUnits);
  }

  lemma LineGrows(executable: string, arguments: seq<string>, index: nat)
    requires index < |arguments|
    ensures Line(executable, arguments[..index + 1]) == Line(executable, arguments[..index]) + " " + Quote(arguments[index])
  {
    assert arguments[..index + 1][..index] == arguments[..index];
  }

  lemma {:induction false} LongPrefixIsTooLong(executable: string, arguments: seq<string>, k: nat)
    requires k <= |arguments| && !Fits(Line(executable, arguments[..k]))
    ensures !Fits(Line(executable, arguments))
    decreases |arguments| - k
  {
    if k == |arguments| {
      assert arguments[..k] == arguments;
    } else {
      LineGrows(executable, arguments, k);
      LongPrefixIsTooLong(executable, arguments, k + 1);
    }
  }

  method BuildWindowsCommandLineRaw(executable: string, rawTail: string) returns (result: BuildResult)
    ensures result.Built? <==>
              executable != "" && NulFree(executable) && NulFree(rawTail) && Fits(RawLine(executable, rawTail))
    ensures result.Built? ==> result == Built(RawLine(executable, rawTail), |RawLine(executable, rawTail)| + 1)
    ensures result.Refused? ==>
              result.error == (if executable == "" then ExecutableEmpty
                               else if NulFree(executable) && NulFree(rawTail) then CommandLineTooLong
                               else ArgumentNul)
  {
    if executable == "" {
      return Refused(ExecutableEmpty, 0);
    }
    if !NulFree(executable) || !NulFree(rawTail) {
      return Refused(ArgumentNul, 0);
    }
    var line := QuoteWindowsCrtArgument(executable);
    if rawTail != "" {
      var visibleLimit := COMMAND_LINE_LIMIT - 1;
      if |line| >= visibleLimit {
        return Refused(CommandLineTooLong, 0);
      }
      var room: nat := visibleLimit - |line| - 1;
      if |rawTail| > room {
        return Refused(CommandLineTooLong, 0);
      }
      line := line + " ";
      line := line + rawTail;
    }
    var codeUnits := |line| + 1;
    if codeUnits > COMMAND_LINE_LIMIT {
      return Refused(CommandLineTooLong, 0);
    }
    result := Built(line, codeUnits);
  }

  // Round trip of one argument

  /** The text after an argument on a built line. */
  predicate Ends(rest: string) {
    rest == "" || Blank(rest[0])
  }

  lemma {:induction false} SlashesLead(n: nat, rest: string)
    requires rest == "" || rest[0] != '\\'
    ensures LeadingSlashes(Slashes(n) + rest) == n
  {
    if n > 0 {
      assert (Slashes(n) + rest)[1..] == Slashes(n - 1) + rest;
      SlashesLead(n - 1, rest);
    } else {
      assert Slashes(n) + rest == rest;
    }
  }

  // Single steps of the parser

  /** Taking `literal` off the front leaves the rest to be parsed as before. */
  lemma TakesStep(front: string, rest: string, quoted: bool, literal: string, then': bool)
    requires NextStep(front + rest, quoted) == Take(literal, |front|, then')
    ensures ParseArgument(front + rest, quoted) == (literal + ParseArgument(rest, then').0, ParseArgument(rest, then').1)
  {
    assert (front + rest)[|front|..] == rest;
  }

  lemma PlainCharacter(c: char, rest: string, quoted: bool)
    requires c != '\\' && c != '\"' && (quoted || !Blank(c))
    ensures ParseArgument([c] + rest, quoted) == ([c] + ParseArgument(rest, quoted).0, ParseArgument(rest, quoted).1)
  {
    assert LeadingSlashes([c] + rest) == 0;
    TakesStep([c], rest, quoted, [c], quoted);
  }

  lemma OpeningQuote(rest: string)
    ensures ParseArgument(['\"'] + rest, false) == ParseArgument(rest, true)
  {
    assert LeadingSlashes(['\"'] + rest) == 0;
    TakesStep(['\"'], rest, false, [], true);
    assert [] + ParseArgument(rest, true).0 == ParseArgument(rest, true).0;
  }

  /** Backslashes before anything but a quote stand for themselves. */
  lemma LiteralSlashes(n: nat, rest: string, quoted: bool)
    requires rest == "" || (rest[0] != '\\' && rest[0] != '\"')
    ensures ParseArgument(Slashes(n) + rest, quoted)
         == (Slashes(n) + ParseArgument(rest, quoted).0, ParseArgument(rest, quoted).1)
  {
    SlashesLead(n, rest);
    if n == 0 {
      assert Slashes(n) + rest == rest;
      assert Slashes(0) + ParseArgument(rest, quoted).0 == ParseArgument(rest, quoted).0;
    } else {
      TakesStep(Slashes(n), rest, quoted, Slashes(n), quoted);
    }
  }

  /** An odd number of backslashes before a quote makes it literal. */
  lemma EscapedQuote(n: nat, rest: string)
    ensures ParseArgument(Slashes(2 * n + 1) + (['\"'] + rest), true)
         == (Slashes(n) + ['\"'] + ParseArgument(rest, true).0, ParseArgument(rest, true).1)
  {
    SlashesLead(2 * n + 1, ['\"'] + rest);
    assert Slashes(2 * n + 1) + (['\"'] + rest) == (Slashes(2 * n + 1) + ['\"']) + rest;
    TakesStep(Slashes(2 * n + 1) + ['\"'], rest, true, Slashes(n) + ['\"'], true);
  }

  /** An even number of backslashes before a quote leaves it to close the quoted part. */
  lemma ClosingQuote(n: nat, rest: string)
    requires Ends(rest)
    ensures ParseArgument(Slashes(2 * n) + (['\"'] + rest), true) == (Slashes(n), rest)
  {
    var close := ['\"'] + rest;
    assert ParseArgument(close, true) == ([], rest) by {
      assert rest != "" ==> close[1] == rest[0];
      assert LeadingSlashes(close) == 0;
      TakesStep(['\"'], rest, true, [], false);
      EndOfArgument(rest);
      assert [] + ParseArgument(rest, false).0 == [];
    }
    SlashesLead(2 * n, close);
    if n == 0 {
      assert Slashes(2 * n) + close == close;
    } else {
      TakesStep(Slashes(2 * n), close, true, Slashes(n), true);
      assert Slashes(n) + [] == Slashes(n);
    }
  }

  lemma {:induction false} QuotedArgumentParses(argument: string, backslashes: nat, rest: string)
    requires Ends(rest)
    ensures ParseArgument(QuoteRest(argument, backslashes) + rest, true) == (Slashes(backslashes) + argument, rest)
    decreases |argument|
  {
    hide ParseArgument;
    if argument == "" {
      ClosingQuote(backslashes, rest);
      assert QuoteRest(argument, backslashes) + rest == Slashes(2 * backslashes) + (['\"'] + rest);
      assert Slashes(backslashes) + "" == Slashes(backslashes);
    } else if argument[0] == '\\' {
      QuotedArgumentParses(argument[1..], backslashes + 1, rest);
      assert Slashes(backslashes + 1) + argument[1..] == Slashes(backslashes) + argument;
    } else {
      QuotedArgumentParses(argument[1..], 0, rest);
      assert Slashes(0) + argument[1..] == argument[1..];
      QuotedCharacterParses(argument[0], argument[1..], backslashes, rest);
      assert [argument[0]] + argument[1..] == argument;
    }
  }

  /** A character that is no backslash, with the backslashes before it. */
  lemma QuotedCharacterParses(c: char, argument: string, backslashes: nat, rest: string)
    requires c != '\\'
    requires ParseArgument(QuoteRest(argument, 0) + rest, true) == (argument, rest)
    ensures ParseArgument(QuoteRest([c] + argument, backslashes) + rest, true)
         == (Slashes(backslashes) + ([c] + argument), rest)
  {
    hide *;
    var more := QuoteRest(argument, 0) + rest;
    QuoteRestStep(c, argument, backslashes, rest);
    if c == '\"' {
      EscapedQuote(backslashes, more);
      assert Slashes(backslashes) + ([c] + argument) == Slashes(backslashes) + [c] + argument;
    } else {
      PlainCharacter(c, more, true);
      LiteralSlashes(backslashes, [c] + more, true);
    }
  }

  lemma QuoteRestStep(c: char, argument: string, backslashes: nat, rest: string)
    requires c != '\\'
    ensures QuoteRest([c] + argument, backslashes) + rest
         == Slashes(if c == '\"' then 2 * backslashes + 1 else backslashes) + ([c] + (QuoteRest(argument, 0) + rest))
  {
    assert ([c] + argument)[1..] == argument;
  }

  lemma EndOfArgument(rest: string)
    requires Ends(rest)
    ensures ParseArgument(rest, false) == ("", rest)
  {
    assert LeadingSlashes(rest) == 0;
  }

  lemma {:induction false} PlainArgumentParses(argument: string, rest: string)
    requires Ends(rest) && forall i | 0 <= i < |argument| :: !Blank(argument[i]) && argument[i] != '\"'
    ensures ParseArgument(argument + rest, false) == (argument, rest)
    decreases |argument|
  {
    hide ParseArgument;
    var n := LeadingSlashes(argument);
    if argument == "" {
      assert argument + rest == rest;
      EndOfArgument(rest);
    } else if n == 0 {
      PlainArgumentParses(argument[1..], rest);
      PlainCharacter(argument[0], argument[1..] + rest, false);
      assert [argument[0]] + (argument[1..] + rest) == argument + rest;
      assert [argument[0]] + argument[1..] == argument;
    } else {
      PlainArgumentParses(argument[n..], rest);
      LiteralSlashes(n, argument[n..] + rest, false);
      assert Slashes(n) + (argument[n..] + rest) == argument + rest;
      assert Slashes(n) + argument[n..] == argument;
    }
  }

  /** The runtime reads a quoted argument back as it was, and starts it where it should. */
  lemma ArgumentRoundTrip(argument: string, rest: string)
    requires Ends(rest)
    ensures ParseArgument(Quote(argument) + rest, false) == (argument, rest)
    ensures Quote(argument) != "" && !Blank(Quote(argument)[0])
  {
    hide ParseArgument, QuoteRest;
    if NeedsQuotes(argument) {
      QuotedArgumentParses(argument, 0, rest);
      assert Slashes(0) + argument == argument;
      OpeningQuote(QuoteRest(argument, 0) + rest);
      assert Quote(argument) + rest == ['\"'] + (QuoteRest(argument, 0) + rest);
    } else {
      PlainArgumentParses(argument, rest);
    }
  }

  // Round trip of the line

  lemma {:induction false} TailFromFront(arguments: seq<string>)
    requires arguments != []
    ensures Tail(arguments) == " " + Quote(arguments[0]) + Tail(arguments[1..])
  {
    hide *;
    var n := |arguments| - 1;
    TailFromBack(arguments);
    if n > 0 {
      var init, tail := arguments[..n], arguments[1..];
      TailFromFront(init);
      TailFromBack(tail);
      assert init[1..] == tail[..n - 1] && init[0] == arguments[0] && tail[n - 1] == arguments[n];
      Regroup(" " + Quote(arguments[0]), Tail(tail[..n - 1]), " " + Quote(arguments[n]));
    } else {
      assert arguments[..n] == arguments[1..];
      NoTail(arguments[1..], " " + Quote(arguments[0]));
    }
  }

  lemma TailFromBack(arguments: seq<string>)
    requires arguments != []
    ensures Tail(arguments) == Tail(arguments[..|arguments| - 1]) + (" " + Quote(arguments[|arguments| - 1]))
  {
    hide Quote;
  }

  lemma NoTail(arguments: seq<string>, text: string)
    requires arguments == []
    ensures Tail(arguments) + text == text + Tail(arguments)
  {
  }

  lemma {:induction false} TailRoundTrip(arguments: seq<string>)
    ensures ParseArguments(Tail(arguments)) == arguments
    ensures Ends(Tail(arguments))
  {
    hide ParseArgument, Quote;
    if arguments != [] {
      TailFromFront(arguments);
      TailRoundTrip(arguments[1..]);
      var rest := Tail(arguments[1..]);
      ArgumentRoundTrip(arguments[0], rest);
      assert Tail(arguments) == [' '] + (Quote(arguments[0]) + rest);
      BlankThenArgument(Quote(arguments[0]) + rest, arguments[0], rest);
      assert [arguments[0]] + arguments[1..] == arguments;
    }
  }

  lemma BlankThenArgument(start: string, argument: string, rest: string)
    requires start != "" && !Blank(start[0]) && ParseArgument(start, false) == (argument, rest)
    ensures ParseArguments([' '] + start) == [argument] + ParseArguments(rest)
  {
    assert ([' '] + start)[1..] == start;
    assert SkipBlanks([' '] + start) == SkipBlanks(start) == start;
  }

  /** The program names that survive: the runtime knows no escapes in a program name. */
  predicate FaithfulProgram(executable: string) {
    && '\"' !in executable
    && !(NeedsQuotes(executable) && executable != "" && executable[|executable| - 1] == '\\')
  }

  lemma {:induction false} ProgramHasNoQuotes(text: string, quoted: bool)
    ensures '\"' !in ParseProgram(text, quoted).0
  {
    if text != "" && (text[0] == '\"' || quoted || !Blank(text[0])) {
      ProgramHasNoQuotes(text[1..], if text[0] == '\"' then !quoted else quoted);
    }
  }

  lemma {:induction false} ProgramParses(name: string, quoted: bool, rest: string)
    requires '\"' !in name && (quoted || forall i | 0 <= i < |name| :: !Blank(name[i]))
    ensures var (more, after) := ParseProgram(rest, quoted);
            ParseProgram(name + rest, quoted) == (name + more, after)
  {
    var (more, after) := ParseProgram(rest, quoted);
    if name == "" {
      assert name + rest == rest;
      assert name + more == more;
    } else {
      ProgramParses(name[1..], quoted, rest);
      assert (name + rest)[0] == name[0] && (name + rest)[1..] == name[1..] + rest;
      assert [name[0]] + (name[1..] + more) == name + more;
    }
  }

  /** Without quotes inside, quoting only doubles the backslashes at the end. */
  lemma {:induction false} QuoteWithoutQuotes(rest: string, backslashes: nat) returns (extra: nat)
    requires '\"' !in rest
    ensures QuoteRest(rest, backslashes) == Slashes(backslashes) + rest + Slashes(extra) + "\""
    ensures extra == 0 <==> (if rest == "" then backslashes == 0 else rest[|rest| - 1] != '\\')
    decreases |rest|
  {
    if rest == "" {
      extra := backslashes;
      assert Slashes(2 * backslashes) == Slashes(backslashes) + Slashes(backslashes);
    } else if rest[0] == '\\' {
      extra := QuoteWithoutQuotes(rest[1..], backslashes + 1);
      assert Slashes(backslashes + 1) + rest[1..] == Slashes(backslashes) + rest;
    } else {
      extra := QuoteWithoutQuotes(rest[1..], 0);
      assert Slashes(0) + rest[1..] + Slashes(extra) == rest[1..] + Slashes(extra);
      assert [rest[0]] + rest[1..] == rest;
      assert Slashes(backslashes) + [rest[0]] + (rest[1..] + Slashes(extra) + "\"")
          == Slashes(backslashes) + rest + Slashes(extra) + "\"";
    }
  }

  lemma ProgramRoundTrip(executable: string, rest: string)
    requires executable != "" && Ends(rest) && '\"' !in executable
    ensures var (program, after) := ParseProgram(Quote(executable) + rest, false);
            after == rest && (program == executable <==> FaithfulProgram(executable))
  {
    if NeedsQuotes(executable) {
      var extra := QuoteWithoutQuotes(executable, 0);
      var body := executable + Slashes(extra);
      QuotedProgramParses(body, rest);
      assert Slashes(0) + executable == executable;
      assert Quote(executable) + rest == ['\"'] + (body + (['\"'] + rest));
      if extra == 0 {
        assert body == executable;
      } else {
        assert |body| > |executable|;
      }
    } else {
      ProgramParses(executable, false, rest);
      assert ParseProgram(rest, false) == ("", rest);
      assert executable + "" == executable;
    }
  }

  lemma QuotedProgramParses(body: string, rest: string)
    requires Ends(rest) && '\"' !in body
    ensures ParseProgram(['\"'] + (body + (['\"'] + rest)), false) == (body, rest)
  {
    var close := ['\"'] + rest;
    assert close[1..] == rest;
    assert ParseProgram(rest, false) == ("", rest);
    assert ParseProgram(close, true) == ("", rest);
    ProgramParses(body, true, close);
    assert body + "" == body;
    assert (['\"'] + (body + close))[1..] == body + close;
  }

  /** Main result: the runtime takes a built line apart into exactly the program and the arguments
      it was built from, if and only if the program name has no quote and, where it must be
      quoted, no backslash at its end.  The arguments are free of any condition. */
  lemma LineRoundTrip(executable: string, arguments: seq<string>)
    requires executable != ""
    ensures ParseCommandLine(Line(executable, arguments)) == [executable] + arguments <==> FaithfulProgram(executable)
    ensures '\"' !in executable ==> ParseCommandLine(Line(executable, arguments))[1..] == arguments
  {
    TailRoundTrip(arguments);
    if '\"' in executable {
      ProgramHasNoQuotes(Line(executable, arguments), false);
      assert ParseCommandLine(Line(executable, arguments))[0] != ([executable] + arguments)[0];
    } else {
      ProgramRoundTrip(executable, Tail(arguments));
      var program := ParseProgram(Line(executable, arguments), false).0;
      assert ParseCommandLine(Line(executable, arguments)) == [program] + arguments;
      assert ([program] + arguments)[0] == program && ([executable] + arguments)[0] == executable;
    }
  }

  /** A raw tail reaches the program as the runtime reads it on its own. */
  lemma RawLineKeepsTail(executable: string, rawTail: string)
    requires executable != "" && FaithfulProgram(executable)
    ensures ParseCommandLine(RawLine(executable, rawTail)) == [executable] + ParseArguments(rawTail)
  {
    var rest := if rawTail == "" then "" else " " + rawTail;
    ProgramRoundTrip(executable, rest);
    if rawTail != "" {
      assert rest[1..] == rawTail;
      assert SkipBlanks(rest) == SkipBlanks(rawTail);
    }
  }
}
