/**
 The `MetaKernelProsaic` conversation controller: the directive interpreter
 (`_do_command`) and the entry point that dispatches one notebook cell
 (`do_execute_direct`). The kernel's only state is `chat_log`, the
 transcript, a list of strings whose concatenation seeds every query. Each
 operation takes the transcript and returns a `Reply`: the texts it printed,
 the transcript afterwards, and how the cell ended.
 */
module Kernel {
  import opened Text
  import opened Query

  /** How a cell ended: normally, with an exception's message, or aborted by
      a keyboard interrupt. */
  datatype Status = Ok | Error(message: string) | Abort

  /** What one cell did: the texts it printed, the transcript afterwards, how
      it ended, and the completion request it sent, if any. */
  datatype Reply = Reply(printed: seq<string>, log: seq<string>, status: Status, request: Option<ApiArgs>)

  /** How the completion stream ended after delivering its chunks: the
      service closed it, the user interrupted, or the client raised. */
  datatype StreamEnd = Closed | Interrupted | Failed(detail: string)

  /** What the completion service delivered to one query. */
  datatype Delivery = Delivery(chunks: seq<string>, end: StreamEnd)

  const LogTakesNoInput: string := "!log takes no input"
  const IgnoringNotice: string := "[Ignoring...]"
  const UnknownCommand: string := "Unknown command "
  /** The message of the `IndexError` that `[][0]` raises. */
  const IndexOutOfRange: string := "list index out of range"

  /** The line `!reset` prints after replacing the transcript. */
  function ResetReport(lineCount: nat): string {
    "Reset! Prompt is " + NatToString(lineCount) + " lines."
  }

  /** The first lines `_do_command` gives a meaning to. */
  predicate IsKnownDirective(line: string) {
    line == "!log" || line == "!reset" || line == "!nb" || line == "<!--"
  }

  /** A cell whose first line is exactly `!reset`. */
  predicate IsReset(code: string) {
    code != [] && FirstLine(code) == "!reset"
  }

  /** `_do_command(code)`: dispatch on the whole first line of the cell. Only
      `!reset` changes the transcript, a failing directive leaves it as it
      was, and no directive aborts. */
  function DoCommand(log: seq<string>, code: string): (r: Reply)
    ensures r.log != log ==> IsReset(code)
    ensures r.status.Error? ==> r.log == log
    ensures r.status != Abort
    ensures r.request == None
  {
    var lines := SplitLines(code);
    if lines == [] then
      Reply([], log, Error(IndexOutOfRange), None)
    else
      SplitLinesFirst(code);
      var first := lines[0];
      var rest := lines[1..];
      if first == "!log" then
        Reply([Concat(log)], log, if |rest| > 0 then Error(LogTakesNoInput) else Ok, None)
      else if first == "!reset" then
        Reset(rest)
      else if first == "!nb" || first == "<!--" then
        Reply([IgnoringNotice], log, Ok, None)
      else
        Reply([], log, Error(UnknownCommand + first), None)
  }

  /** The `!reset` branch given the lines after the first: the transcript is
      replaced by at most one entry, and the report counts the newlines of
      the new transcript's rendering. */
  function Reset(rest: seq<string>): (r: Reply)
    ensures |r.log| <= 1 && r.status == Ok && r.request == None
    ensures r.printed == [ResetReport(Count(Concat(r.log), '\n'))]
  {
    var newLog := if |rest| > 0 then ["\n\n" + Strip(JoinLines(rest))] else [];
    var lineCount := Count((if newLog == [] then [""] else newLog)[0], '\n');
    ConcatSingleton("\n\n" + Strip(JoinLines(rest)));
    Reply([ResetReport(lineCount)], newLog, Ok, None)
  }

  /** `!log` prints the whole transcript and never changes it; if any text
      follows the first line it then fails with "!log takes no input". */
  lemma LogDirective(log: seq<string>, code: string)
    requires FirstLine(code) == "!log"
    ensures DoCommand(log, code) ==
      Reply([Concat(log)], log, if AfterFirstLine(code) == [] then Ok else Error(LogTakesNoInput), None)
  {
    assert code != [];
    SplitLinesFirst(code);
  }

  /** Joining the remaining lines and stripping gives the stripped text after
      the first line. */
  lemma StripJoinedLines(text: string)
    ensures Strip(JoinLines(SplitLines(text))) == Strip(text)
  {
    JoinSplitLines(text);
    StripDropFinalNewline(text);
  }

  lemma StripDropFinalNewline(text: string)
    ensures Strip(DropFinalNewline(text)) == Strip(text)
  {
    if text != [] && text[|text| - 1] == '\n' {
      var init := text[..|text| - 1];
      assert text == init + ['\n'];
      StripDropsTrailingSpace(init, '\n');
    }
  }

  /** `!reset` discards every earlier entry. With nothing after the first line
      the transcript becomes empty; otherwise it becomes the single entry
      `"\n\n"` followed by the stripped rest of the cell. It reports how many
      newlines the new transcript holds. */
  lemma ResetDirective(log: seq<string>, code: string)
    requires FirstLine(code) == "!reset"
    ensures var r := DoCommand(log, code);
      && r.status == Ok
      && r.log == (if AfterFirstLine(code) == [] then [] else ["\n\n" + Strip(AfterFirstLine(code))])
      && r.printed == [ResetReport(Count(Concat(r.log), '\n'))]
  {
    assert code != [];
    SplitLinesFirst(code);
    var tail := AfterFirstLine(code);
    var lines := SplitLines(code);
    assert lines[0] == "!reset";
    assert lines[1..] == SplitLines(tail);
    StripJoinedLines(tail);
  }

  /** A reset replaces the transcript without merging: its outcome does not
      depend on the transcript it replaced. */
  lemma ResetIgnoresHistory(log1: seq<string>, log2: seq<string>, code: string)
    requires FirstLine(code) == "!reset"
    ensures DoCommand(log1, code) == DoCommand(log2, code)
  {
    ResetDirective(log1, code);
    ResetDirective(log2, code);
  }

  /** `!nb` and `<!--` print a notice and change nothing. */
  lemma IgnoredDirective(log: seq<string>, code: string)
    requires FirstLine(code) == "!nb" || FirstLine(code) == "<!--"
    ensures DoCommand(log, code) == Reply([IgnoringNotice], log, Ok, None)
  {
    assert code != [];
    SplitLinesFirst(code);
  }

  /** Any other first line, compared as a whole, is an unknown command that
      names the line and leaves the transcript unchanged. */
  lemma UnknownDirective(log: seq<string>, code: string)
    requires code != [] && !IsKnownDirective(FirstLine(code))
    ensures DoCommand(log, code) == Reply([], log, Error(UnknownCommand + FirstLine(code)), None)
  {
    SplitLinesFirst(code);
  }

  /** A reset whose seed text is already stripped installs it verbatim. */
  lemma ResetWithStrippedSeed(log: seq<string>, code: string, seed: string, lineCount: nat)
    requires FirstLine(code) == "!reset" && AfterFirstLine(code) == seed
    requires seed != [] && Strip(seed) == seed
    requires Count("\n\n" + seed, '\n') == lineCount
    ensures DoCommand(log, code) == Reply([ResetReport(lineCount)], ["\n\n" + seed], Ok, None)
  {
    ResetDirective(log, code);
    ConcatSingleton("\n\n" + seed);
  }

  /** `"!reset\nHello\nWorld"` leaves the transcript `["\n\nHello\nWorld"]`
      and reports three lines. */
  lemma ResetExample(log: seq<string>)
    ensures DoCommand(log, "!reset\nHello\nWorld") == Reply(["Reset! Prompt is 3 lines."], ["\n\n" + "Hello\nWorld"], Ok, None)
  {
    var code := "!reset\nHello\nWorld";
    ResetExampleLines(code);
    var seed := AfterFirstLine(code);
    ExampleSeed(seed);
    ResetWithStrippedSeed(log, code, seed, 3);
    ResetReportThree();
  }

  lemma ExampleSeed(seed: string)
    requires seed == "Hello\nWorld"
    ensures seed != [] && Strip(seed) == seed
    ensures Count("\n\n" + seed, '\n') == 3
  {
    StripUnchanged(seed);
    NewlineCountExample();
  }

  lemma ResetReportThree()
    ensures ResetReport(3) == "Reset! Prompt is 3 lines."
  {
    assert NatToString(3) == "3";
  }

  lemma ResetExampleLines(code: string)
    requires code == "!reset\nHello\nWorld"
    ensures FirstLine(code) == "!reset" && AfterFirstLine(code) == "Hello\nWorld"
  {
    NewlineIndexAfterLine("!reset", "Hello\nWorld");
    assert code == "!reset" + "\n" + "Hello\nWorld";
  }

  lemma NewlineCountExample()
    ensures Count("\n\n" + "Hello\nWorld", '\n') == 3
  {
    var hello, nl, world := "Hello", "\n", "World";
    assert "Hello\nWorld" == hello + nl + world;
    CountAppend("\n\n", hello + nl + world, '\n');
    CountAppend(hello + nl, world, '\n');
    CountAppend(hello, nl, '\n');
    assert Count(hello, '\n') == 0;
    assert Count(world, '\n') == 0;
    assert Count(nl, '\n') == 1;
    assert Count("\n\n", '\n') == 2;
  }

  /** `!log` followed by any text fails as misuse, after printing the transcript. */
  lemma LogWithInputExample(log: seq<string>)
    ensures DoCommand(log, "!log\nextra") == Reply([Concat(log)], log, Error(LogTakesNoInput), None)
  {
    var code := "!log\nextra";
    NewlineIndexAfterLine("!log", "extra");
    assert code == "!log" + "\n" + "extra";
    LogDirective(log, code);
  }

  /** Matching is on the whole first line: `!log x` is not `!log`. */
  lemma LogNearMissExample(log: seq<string>)
    ensures DoCommand(log, "!log x") == Reply([], log, Error(UnknownCommand + "!log x"), None)
  {
    var code := "!log x";
    NewlineIndexNone(code);
    UnknownDirective(log, code);
  }

  /** An HTML tag other than a comment opener is an unknown command. */
  lemma TagNearMissExample(log: seq<string>)
    ensures DoCommand(log, "<div>") == Reply([], log, Error(UnknownCommand + "<div>"), None)
  {
    var code := "<div>";
    NewlineIndexNone(code);
    UnknownDirective(log, code);
  }

  /** What kind of cell an input is. */
  datatype Entry = Blank | Directive | Conversation(query: string)

  /** The dispatch at the top of `do_execute_direct`. A cell is blank exactly
      when it is all whitespace; otherwise it is a directive exactly when its
      very first character, before any stripping, is `!` or `<`; every other
      cell is a query on its stripped text. */
  function Classify(code: string): (e: Entry)
    ensures e == Blank <==> AllSpace(code)
    ensures e == Directive <==> !AllSpace(code) && (code[0] == '!' || code[0] == '<')
    ensures e.Conversation? ==> e.query == Strip(code) && e.query != []
    ensures IsReset(code) ==> e == Directive
  {
    assert IsReset(code) ==> FirstLine(code)[0] == code[0];
    if Strip(code) == [] then Blank
    else if code[0] == '!' || code[0] == '<' then Directive
    else Conversation(Strip(code))
  }

  /** A conversational turn on `query`, whose answer starts as `start` (the
      source starts it as `None`). The deltas are printed as they arrive;
      only a stream that ran to its end with an answer present appends, and
      it appends exactly one entry, the query prompt followed by the whole
      answer. An interrupt aborts and a raised error fails, and neither
      touches the transcript. */
  function Converse(log: seq<string>, query: string, start: Option<string>, d: Delivery): (r: Reply)
    ensures r.log != log <==> start.Some? && d.end == Closed
    ensures r.log != log ==>
              r.log == log + [NewQuery(query, Concat(log)).queryPrompt + start.value + Concat(d.chunks)]
    ensures r.status == Abort <==> d.end == Interrupted && (start.Some? || d.chunks == [])
    ensures r.status.Error? <==> (start.None? && d.chunks != []) || d.end.Failed?
    ensures r.printed == (if start.None? && d.chunks != [] then [] else d.chunks)
    ensures r.request == Some(NewQuery(query, Concat(log)).apiArgs)
    ensures r.request.value.prompt == Concat(log) + HumanPrompt + " " + query + AiPrompt
  {
    var q := NewQuery(query, Concat(log)).(answer := start);
    var sent := Some(q.apiArgs);
    var run := Stream(q, d.chunks);
    if run.fault.Some? then
      Reply(run.yielded, log, Error(run.fault.value), sent)
    else
      match d.end
      case Interrupted => Reply(run.yielded, log, Abort, sent)
      case Failed(detail) => Reply(run.yielded, log, Error(detail), sent)
      case Closed =>
        var entry := PromptAndAnswer(run.query);
        if entry.Some? && entry.value != [] then
          assert entry.value == q.queryPrompt + (start.value + Concat(d.chunks));
          assert q.queryPrompt + (start.value + Concat(d.chunks))
              == q.queryPrompt + start.value + Concat(d.chunks);
          Reply(run.yielded, log + [entry.value], Ok, sent)
        else
          Reply(run.yielded, log, Ok, sent)
  }

  /** `do_execute_direct(code)` for one cell, the answer of any query starting
      as `start`. A blank cell does nothing. Apart from a reset, a cell at
      most appends one entry at the end of the transcript, so the old
      rendering stays a prefix of the new one; a reset leaves at most one
      entry; a cell that fails or aborts leaves the transcript as it was. */
  function ExecuteDirect(log: seq<string>, code: string, start: Option<string>, d: Delivery): (r: Reply)
    ensures AllSpace(code) ==> r == Reply([], log, Ok, None)
    ensures !AllSpace(code) && (code[0] == '!' || code[0] == '<') ==> r == DoCommand(log, code)
    ensures !AllSpace(code) && code[0] != '!' && code[0] != '<' ==> r == Converse(log, Strip(code), start, d)
    ensures !IsReset(code) ==> log <= r.log && |r.log| <= |log| + 1
    ensures !IsReset(code) ==> Concat(log) <= Concat(r.log)
    ensures IsReset(code) ==> |r.log| <= 1 && r.status == Ok
    ensures r.status != Ok ==> r.log == log
    ensures r.request.Some? <==> !AllSpace(code) && code[0] != '!' && code[0] != '<'
    ensures r.request.Some? ==> r.request.value.prompt == Concat(log) + HumanPrompt + " " + Strip(code) + AiPrompt
  {
    match Classify(code)
    case Blank => Reply([], log, Ok, None)
    case Directive =>
      DirectiveOutcome(log, code);
      DoCommand(log, code)
    case Conversation(query) =>
      ConversationOutcome(log, query, start, d);
      Converse(log, query, start, d)
  }

  /** The transcript facts of a directive cell. */
  lemma DirectiveOutcome(log: seq<string>, code: string)
    ensures var r := DoCommand(log, code);
      && (!IsReset(code) ==> r.log == log)
      && (IsReset(code) ==> |r.log| <= 1 && r.status == Ok)
      && (r.status != Ok ==> r.log == log)
  {
    if IsReset(code) {
      ResetDirective(log, code);
    }
  }

  /** The transcript facts of a conversational cell. */
  lemma ConversationOutcome(log: seq<string>, query: string, start: Option<string>, d: Delivery)
    ensures var r := Converse(log, query, start, d);
      && log <= r.log && |r.log| <= |log| + 1
      && Concat(log) <= Concat(r.log)
      && (r.status != Ok ==> r.log == log)
  {
    var r := Converse(log, query, start, d);
    ConcatMonotonic(log, r.log);
  }

  /** One cell of the kernel as written, whose queries start their answer
      as `None`: a query that receives any chunk fails with the `TypeError`
      and prints nothing, and no cell but a reset changes the transcript. */
  function AsWrittenExecute(log: seq<string>, code: string, d: Delivery): (r: Reply)
    ensures !AllSpace(code) && code[0] != '!' && code[0] != '<' && d.chunks != [] ==>
              r.printed == [] && r.log == log && r.status == Error(NoneConcatError)
    ensures !IsReset(code) ==> r.log == log
  {
    AsWrittenKeepsTranscript(log, code, d);
    ExecuteDirect(log, code, None, d)
  }

  lemma AsWrittenKeepsTranscript(log: seq<string>, code: string, d: Delivery)
    ensures !IsReset(code) ==> ExecuteDirect(log, code, None, d).log == log
  {
    match Classify(code)
    case Blank =>
    case Directive =>
    case Conversation(query) =>
      assert ExecuteDirect(log, code, None, d) == Converse(log, query, None, d);
  }

  /** One cell of the evidently intended kernel, whose queries start their
      answer as `""`: a query whose stream ran to its end prints every chunk
      and appends exactly one entry, the query prompt followed by the whole
      answer; outside a reset the transcript only grows. */
  function IntendedExecute(log: seq<string>, code: string, d: Delivery): (r: Reply)
    ensures !AllSpace(code) && code[0] != '!' && code[0] != '<' && d.end == Closed ==>
              && r.printed == d.chunks
              && r.log == log + [HumanPrompt + " " + Strip(code) + AiPrompt + Concat(d.chunks)]
              && r.status == Ok
    ensures !IsReset(code) ==> log <= r.log && |r.log| <= |log| + 1
  {
    CompletedQueryAppends(log, code, d);
    ExecuteDirect(log, code, Some(""), d)
  }

  lemma CompletedQueryAppends(log: seq<string>, code: string, d: Delivery)
    ensures !AllSpace(code) && code[0] != '!' && code[0] != '<' && d.end == Closed ==>
              ExecuteDirect(log, code, Some(""), d) ==
              Reply(d.chunks, log + [HumanPrompt + " " + Strip(code) + AiPrompt + Concat(d.chunks)], Ok,
                    Some(NewQuery(Strip(code), Concat(log)).apiArgs))
  {
    if !AllSpace(code) && code[0] != '!' && code[0] != '<' && d.end == Closed {
      assert ExecuteDirect(log, code, Some(""), d) == Converse(log, Strip(code), Some(""), d);
      assert d == Delivery(d.chunks, Closed);
      CompletedTurnFromEmptyAnswer(log, Strip(code), d.chunks);
      QueryPromptShape(Strip(code), Concat(log));
    }
  }

  /** A concrete instance: asking "Hi" and receiving the chunk "Hello"
      fails, prints nothing and records nothing. */
  lemma FreshQueryExample(code: string, d: Delivery)
    requires code == "Hi" && d == Delivery(["Hello"], Closed)
    ensures AsWrittenExecute([], code, d) == Reply([], [], Error(NoneConcatError), Some(NewQuery(code, "").apiArgs))
  {
    assert code[0] == 'H' && !IsSpace(code[0]);
    assert !AllSpace(code);
  }

  /** The same exchange in the intended kernel prints "Hello" and records
      the query prompt followed by the answer. */
  lemma IntendedQueryExample(code: string, d: Delivery)
    requires code == "Hi" && d == Delivery(["Hello"], Closed)
    ensures IntendedExecute([], code, d) ==
      Reply(["Hello"], [HumanPrompt + " " + "Hi" + AiPrompt + "Hello"], Ok, Some(NewQuery(code, "").apiArgs))
  {
    assert code[0] == 'H' && !IsSpace(code[0]) && !IsSpace(code[|code| - 1]);
    assert !AllSpace(code);
    StripUnchanged(code);
    ConcatSingleton("Hello");
  }

  lemma QueryPromptShape(query: string, prefix: string)
    ensures NewQuery(query, prefix).queryPrompt == HumanPrompt + " " + query + AiPrompt
  {
  }

  /** A completed stream whose answer starts empty appends the query prompt
      followed by the chunks, and prints the chunks. */
  lemma CompletedTurnFromEmptyAnswer(log: seq<string>, query: string, chunks: seq<string>)
    ensures Converse(log, query, Some(""), Delivery(chunks, Closed)) ==
      Reply(chunks, log + [NewQuery(query, Concat(log)).queryPrompt + Concat(chunks)], Ok,
            Some(NewQuery(query, Concat(log)).apiArgs))
  {
    var r := Converse(log, query, Some(""), Delivery(chunks, Closed));
    var qp := NewQuery(query, Concat(log)).queryPrompt;
    assert r.log == log + [qp + "" + Concat(chunks)];
    assert qp + "" == qp;
  }
}
