# Prosaic kernel: conversation controller

A Dafny model of the conversation controller of the Prosaic notebook kernel
(`prosaic_kernel/kernel.py`). The kernel forwards each notebook cell to a
hosted text-completion service, streams the answer back, and keeps a
transcript (`chat_log`). Each cell's query is seeded with the concatenation
of that transcript. The model covers three parts:

- **Directive interpreter** (`_do_command`): a cell whose first character is
  `!` or `<` is a directive, chosen by its whole first line. `!log` prints
  the transcript. `!reset` replaces the transcript with an optional seed and
  reports the seed's newline count. `!nb` and `<!--` are ignored. Anything
  else is an "Unknown command" error.
- **Entry dispatch and transcript update** (`do_execute_direct`). A blank
  cell does nothing. A directive goes to the interpreter. Any other cell
  becomes a query on the stripped cell text. Its streamed deltas are printed,
  and at most one `prompt + answer` entry is appended after the stream ends.
  An interrupt aborts and appends nothing.
- **Prompt and answer assembly** (`AnthropicQuery`). It builds the query
  prompt and the request arguments, accumulates streamed chunks into
  `answer`, and exposes `prompt_and_answer`.

The model is functional. The transcript is an immutable `seq<string>`. Every
operation returns a `Reply`: the texts it printed, the transcript afterwards,
a `Status` (`Ok`, `Error(message)` or `Abort`), and the arguments of the
completion request it sent, if any. Python exceptions become
`Error` with the exception's message. A keyboard interrupt becomes `Abort`.

The completion service is replaced by its response. For `sync` that is the
completion string. For `stream` it is a `Delivery`: the chunks that arrived,
in order, and how the stream ended (closed, interrupted by the user, or
failed with an error). The Python `str` operations the code relies on are
modelled in module `Text`: `strip()`, `splitlines()`, `"".join`,
`"\n".join`, `count` and f-string rendering of an `int`.

`answer` starts as `None` (kernel.py:19), and `stream` does
`self.answer += ...` (kernel.py:33). So in the code as written, a fresh query
raises `TypeError` on its first chunk. To state this precisely, a
conversational turn takes the value `answer` starts from as a parameter
`start`. The code's value is `None`. The evidently intended value is `""`
(see Findings). `Kernel.AsWrittenExecute` and `Kernel.IntendedExecute` are
one cell with `start` fixed at these two values. The append-only properties
of the transcript are proved for every `start`.

Two details of the code the model keeps exactly:

- The `!reset` report counts every `'\n'` of the new entry, including the
  two leading ones, so `"!reset\nHello\nWorld"` reports 3 lines
  (`Kernel.ResetExample`).
- `stream` yields each chunk as it arrived, a delta rather than the answer
  so far, and the kernel prints each delta (kernel.py:33-34, 98).

## Model

| member | source | states |
|---|---|---|
| Text.TrimStart | prosaic_kernel/kernel.py:90 | The result is the suffix of the input left after removing all leading whitespace: everything removed is whitespace, and the result is empty or starts with non-whitespace |
| Text.TrimEnd | prosaic_kernel/kernel.py:90 | The same at the other end: the result is a prefix, everything removed is whitespace, and the result is empty or ends with non-whitespace |
| Text.Strip | prosaic_kernel/kernel.py:90 | `code.strip()` is empty exactly when every character of the cell is Python whitespace; otherwise it starts and ends with non-whitespace |
| Text.StripRemovesOuterSpace | prosaic_kernel/kernel.py:90 | `strip()` removes only whitespace, and only at the two ends: the result is a contiguous piece of the input with nothing but whitespace before and after it |
| Text.StripDropsTrailingSpace | prosaic_kernel/kernel.py:125 | Appending a whitespace character does not change what `strip()` returns |
| Text.SplitLines | prosaic_kernel/kernel.py:115 | `splitlines()` returns no lines exactly for the empty string, and no line contains a newline |
| Text.SplitLinesFirst | prosaic_kernel/kernel.py:115-118 | `splitlines()[0]` is the text before the first newline, the remaining lines are the split of the text after it, and `splitlines()[1:]` is non-empty exactly when some text follows the first newline |
| Text.JoinSplitLines | prosaic_kernel/kernel.py:125 | `"\n".join(s.splitlines())` gives `s` back, less one final newline |
| Text.SplitJoinLines | prosaic_kernel/kernel.py:125 | Splitting `"\n".join(lines)` gives `lines` back when no line holds a newline and the last line is not empty |
| Text.ConcatAppend | prosaic_kernel/kernel.py:100 | After appending an entry, the transcript renders as the old rendering followed by that entry |
| Text.ConcatMonotonic | prosaic_kernel/kernel.py:96 | If one transcript extends another, its rendering extends the other's rendering |
| Text.Count | prosaic_kernel/kernel.py:127 | `s.count(c)` is at most `len(s)` |
| Text.CountIsMultiplicity | prosaic_kernel/kernel.py:127 | `s.count(c)` equals the number of occurrences of `c` in `s` |
| Text.CountAppend | prosaic_kernel/kernel.py:127 | The count over a concatenation is the sum of the counts |
| Text.NatToString | prosaic_kernel/kernel.py:128 | The rendering of the line count is a non-empty string of decimal digits with no leading zero |
| Text.DecimalRoundTrip | prosaic_kernel/kernel.py:128 | Reading the rendered line count back as a decimal gives the count |
| Query.NewQuery | prosaic_kernel/kernel.py:16-25 | The query prompt wraps the query in the human marker, a space and the assistant marker, and the query can be read back from it. The request prompt is the prefix followed by the query prompt, and the prefix can be read back from it. The stop sequence is the human marker, the token limit is 800, the model is the literal name, and no answer exists yet |
| Query.PromptAndAnswer | prosaic_kernel/kernel.py:36-37 | It is absent exactly when `answer` is `None`. Otherwise it is the query prompt followed by the answer, and never empty, so the truth test at line 99 coincides with presence |
| Query.Sync | prosaic_kernel/kernel.py:27-29 | Sets `answer` to the returned completion and returns that completion. The request is unchanged, and `prompt_and_answer` becomes the query prompt followed by the completion |
| Query.Stream | prosaic_kernel/kernel.py:31-34 | With an answer present, every chunk is yielded in order and the answer grows to the old answer followed by all the chunks. With `answer` `None`, the first chunk raises `TypeError` before anything is yielded, and the query is unchanged. No chunks means no change |
| Kernel.DoCommand | prosaic_kernel/kernel.py:114-134 | Only a `!reset` first line changes the transcript. A failing directive leaves the transcript as it was, no directive aborts, and no directive sends a request |
| Kernel.Reset | prosaic_kernel/kernel.py:121-128 | `!reset` leaves at most one entry, succeeds, and reports the number of newlines in the new transcript's rendering |
| Kernel.LogDirective | prosaic_kernel/kernel.py:116-120 | `!log` prints the concatenated transcript and never changes it. It succeeds exactly when nothing follows the first line, and otherwise fails with "!log takes no input" after printing |
| Kernel.ResetDirective | prosaic_kernel/kernel.py:121-128 | With nothing after the first line, `!reset` leaves an empty transcript. Otherwise the transcript is exactly one entry, `"\n\n"` followed by the stripped text after the first line. The report counts the newlines of the new rendering, and the directive succeeds |
| Kernel.ResetIgnoresHistory | prosaic_kernel/kernel.py:122 | The outcome of a reset does not depend on the transcript it replaces, so reset replaces and never merges |
| Kernel.IgnoredDirective | prosaic_kernel/kernel.py:130-132 | A first line of exactly `!nb` or `<!--` prints "[Ignoring...]" and changes nothing |
| Kernel.UnknownDirective | prosaic_kernel/kernel.py:133-134 | Any other first line fails with "Unknown command " followed by that line, prints nothing and leaves the transcript unchanged |
| Kernel.ResetExample | prosaic_kernel/kernel.py:121-128 | `"!reset\nHello\nWorld"` leaves the transcript `["\n\nHello\nWorld"]` and prints "Reset! Prompt is 3 lines." |
| Kernel.LogWithInputExample | prosaic_kernel/kernel.py:116-119 | `"!log\nextra"` prints the transcript, fails with "!log takes no input", and leaves the transcript unchanged |
| Kernel.LogNearMissExample | prosaic_kernel/kernel.py:133-134 | `"!log x"` is an unknown command, because matching uses the whole first line |
| Kernel.TagNearMissExample | prosaic_kernel/kernel.py:133-134 | `"<div>"` is an unknown command |
| Kernel.Classify | prosaic_kernel/kernel.py:90-96 | A cell is blank exactly when it is all whitespace. Otherwise it is a directive exactly when its first unstripped character is `!` or `<`. In every other case it is a query on the stripped text, which is non-empty. A `!reset` cell is always a directive |
| Kernel.Converse | prosaic_kernel/kernel.py:96-102 | The transcript changes exactly when an answer is present and the stream ran to its end. It then gains exactly one entry at the end: the query prompt followed by the whole answer. The request sent is the one `AnthropicQuery` builds for the query with the old rendering `"".join(chat_log)` as prefix, so its prompt is that rendering, the human marker, a space, the query and the assistant marker. The cell aborts exactly on an interrupt that is not preceded by the `None` answer's `TypeError`. It fails exactly on that `TypeError` or a client error. The deltas printed are the chunks, or nothing when the first chunk raised |
| Kernel.ExecuteDirect | prosaic_kernel/kernel.py:89-105 | A blank cell prints nothing and changes nothing. Directive and query cells go to the interpreter and to the conversational turn. Exactly the query cells send a request, and its prompt is the old rendering followed by the human marker, a space, the stripped cell and the assistant marker. Apart from a reset, a cell keeps every earlier entry, adds at most one, and the old rendering is a prefix of the new one. A reset leaves at most one entry. A cell that fails or aborts leaves the transcript unchanged |
| Kernel.DirectiveOutcome | prosaic_kernel/kernel.py:114-134 | A directive other than `!reset` leaves the transcript as it was. `!reset` succeeds and leaves at most one entry. A directive that does not succeed leaves the transcript as it was |
| Kernel.ConversationOutcome | prosaic_kernel/kernel.py:96-102 | A conversational turn keeps every earlier entry and adds at most one. The old rendering is a prefix of the new one, and a turn that fails or aborts changes nothing |
| Kernel.AsWrittenExecute | prosaic_kernel/kernel.py:19-34 | One cell of the kernel as written. A query whose stream delivers any chunk fails with the `TypeError`, prints nothing and leaves the transcript unchanged. No cell other than a reset changes the transcript |
| Kernel.AsWrittenKeepsTranscript | prosaic_kernel/kernel.py:89-105 | With the answer starting as `None`, a cell that is not a reset leaves the transcript as it was |
| Kernel.FreshQueryExample | prosaic_kernel/kernel.py:19-34 | In the kernel as written, asking "Hi" and receiving the chunk "Hello" fails with the `TypeError`, prints nothing and leaves an empty transcript empty |
| Kernel.IntendedExecute | prosaic_kernel/kernel.py:96-100 | One cell of the kernel with the answer starting as `""`. A query whose stream ran to its end prints every chunk and appends exactly one entry: the human marker, a space, the stripped cell, the assistant marker and the concatenated chunks. Outside a reset the transcript only grows, by at most one entry |
| Kernel.CompletedQueryAppends | prosaic_kernel/kernel.py:96-100 | With the answer starting as `""`, a query cell whose stream ran to its end succeeds, prints the chunks and appends the query prompt followed by their concatenation |
| Kernel.IntendedQueryExample | prosaic_kernel/kernel.py:96-100 | With the answer starting as `""`, asking "Hi" and receiving "Hello" prints "Hello" and records `"\n\nHuman: Hi\n\nAssistant:Hello"` |
| Kernel.CompletedTurnFromEmptyAnswer | prosaic_kernel/kernel.py:96-100 | With the answer starting as `""` and a stream that ran to its end, the turn succeeds, prints every chunk, and appends exactly the query prompt followed by the concatenated chunks |
| Transcript.AppendOnlyWithoutReset | prosaic_kernel/kernel.py:97-102 | Over any sequence of cells without `!reset`, earlier entries stay in place and each cell adds at most one entry. The rendering before is a prefix of the rendering after |
| Transcript.AsWrittenOnlyResetChangesTranscript | prosaic_kernel/kernel.py:96-100 | As written, any sequence of cells without `!reset` leaves the transcript exactly as it was |
| Transcript.IntendedRecordsEveryTurn | prosaic_kernel/kernel.py:96-100 | With the answer starting as `""`, a sequence of completed conversational turns adds exactly one entry per turn and keeps the earlier entries |

## Left out

- The Anthropic client and network calls (`EnvClient`, `completions.create`, kernel.py:11-13, 28, 32) are not modelled. The response enters as a completion string (`Sync`) or a `Delivery` of chunks. The `client` argument and the `**kwargs` passed through to the request are not modelled.
- `HUMAN_PROMPT` and `AI_PROMPT` come from the `anthropic` package, which is not part of this model. They are fixed at that package's values, `"\n\nHuman:"` and `"\n\nAssistant:"`.
- `kernel_json` (kernel.py:53-68) is not modelled. It is configuration I/O: an environment lookup and `sys.exit`.
- MetaKernel host plumbing is not modelled: `do_execute` and its silent flag, `execution_count`, `magic_prefixes`, `help_suffix`, `get_usage` and the class attributes (kernel.py:40-51, 70-86). Printed output is the sequence of texts passed to `self.Print`; its `end=` argument and the notebook transport are not modelled.
- `wrap_exception` (kernel.py:107-112) is traceback formatting and is not modelled. A failing cell is `Error` with the exception's message. As written, `wrap_exception` is declared without `self` but called as a method (kernel.py:104), so that call would itself raise; this is not modelled either.
- `_known_display_ids` (kernel.py:80) is created but never used, so there is no display-handle deduplication to model.
- kernel.py has no code-validation or execution gate; only an environment flag set by the installer hints at one.
- `prosaic_kernel/install.py` is installer plumbing (argument parsing, kernel-spec installation) and is not modelled. `super_proprietary_api.js` is an HTTP handler unrelated to the kernel and is not modelled either.
- Text.SplitLines: only `'\n'` counts as a line boundary. Python's `splitlines()` also breaks at `'\r'`, `"\r\n"`, `'\v'`, `'\f'`, `'\x1c'`-`'\x1e'`, `'\x85'`, U+2028 and U+2029. So for a cell such as `"!log\r\nx"` the model's first line differs from Python's.
- Query.Stream: the generator is modelled as fully drained. Its laziness is not modelled: printing happens only after the chunks were added to the answer. An interrupt is modelled only after the last delivered chunk, and a client error only before the next chunk.
- Kernel.Converse: the model name `"\tclaude-instant-1"`, with its leading tab, is passed along unchecked. What the service does with it is not modelled.

## Findings

| source | as written | input that shows it | evidently intended | confidence | as-written member | corrected member |
|---|---|---|---|---|---|---|
| prosaic_kernel/kernel.py:19 | `answer` starts as `None`, and `stream` does `self.answer += message.completion` (line 33). The first chunk of every query raises `TypeError` before it is yielded, so no conversational turn is ever added to `chat_log` | cell `"Hi"` whose stream delivers the chunk `"Hello"`: the result is `Error("unsupported operand type(s) for +=: 'NoneType' and 'str'")`, nothing is printed, and the transcript is unchanged | `answer` starts as `""`. Each completed turn then prints its chunks and appends the query prompt followed by the whole answer | high (not executed) | Kernel.AsWrittenExecute | Kernel.IntendedExecute |
