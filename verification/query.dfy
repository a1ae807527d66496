/**
 The `AnthropicQuery` class: one completion request, built from the user's
 query and the transcript prefix that seeds it, together with the answer
 accumulated from the response. The remote completion service is not
 modelled; its response enters as a completion string (`Sync`) or as the
 finite sequence of chunks it streamed (`Stream`).
 */
module Query {
  import opened Text

  datatype Option<+T> = None | Some(value: T)

  /** The role markers of the `anthropic` package (`HUMAN_PROMPT`, `AI_PROMPT`). */
  const HumanPrompt: string := "\n\nHuman:"
  const AiPrompt: string := "\n\nAssistant:"

  const MaxTokensToSample: nat := 800
  /** The model name exactly as written, including its leading tab character. */
  const ModelName: string := "\tclaude-instant-1"

  /** The message of the `TypeError` Python raises for `None += str`. */
  const NoneConcatError: string := "unsupported operand type(s) for +=: 'NoneType' and 'str'"

  /** The keyword arguments of the completion request. */
  datatype ApiArgs = ApiArgs(
    prompt: string,
    stopSequences: seq<string>,
    maxTokensToSample: nat,
    model: string)

  /** A query; `answer` is `None` until a response has been received. */
  datatype AnthropicQuery = AnthropicQuery(
    queryPrompt: string,
    answer: Option<string>,
    apiArgs: ApiArgs)

  /** A query prompt wraps its text in the human marker, a space, and the
      assistant marker. */
  predicate Framed(queryPrompt: string) {
    && |queryPrompt| >= |HumanPrompt| + 1 + |AiPrompt|
    && queryPrompt[..|HumanPrompt| + 1] == HumanPrompt + " "
    && queryPrompt[|queryPrompt| - |AiPrompt|..] == AiPrompt
  }

  /** The query text inside a framed query prompt. */
  function QueryText(queryPrompt: string): string
    requires Framed(queryPrompt)
  {
    queryPrompt[|HumanPrompt| + 1..|queryPrompt| - |AiPrompt|]
  }

  /** The transcript prefix a request carries ahead of its query prompt. */
  function Context(q: AnthropicQuery): string
    requires |q.queryPrompt| <= |q.apiArgs.prompt|
  {
    q.apiArgs.prompt[..|q.apiArgs.prompt| - |q.queryPrompt|]
  }

  /** `AnthropicQuery(query, prefix)`. The request prompt is the prefix
      followed by the framed query, and both can be read back from it; the
      request stops at the human marker, asks for at most 800 tokens, and no
      answer exists yet. */
  function NewQuery(query: string, prefix: string): (q: AnthropicQuery)
    ensures q.answer == None
    ensures Framed(q.queryPrompt) && QueryText(q.queryPrompt) == query
    ensures |q.queryPrompt| <= |q.apiArgs.prompt|
    ensures Context(q) == prefix
    ensures q.apiArgs.prompt == Context(q) + q.queryPrompt
    ensures q.apiArgs.stopSequences == [HumanPrompt]
    ensures q.apiArgs.maxTokensToSample == MaxTokensToSample
    ensures q.apiArgs.model == ModelName
  {
    var queryPrompt := HumanPrompt + " " + query + AiPrompt;
    assert queryPrompt[..|HumanPrompt| + 1] == HumanPrompt + " ";
    var prompt := prefix + queryPrompt;
    assert prompt[..|prefix|] == prefix;
    AnthropicQuery(
      queryPrompt,
      None,
      ApiArgs(prompt, [HumanPrompt], MaxTokensToSample, ModelName))
  }

  /** `prompt_and_answer()`: nothing until an answer exists, then the query
      prompt followed by the answer. A present result is never the empty
      string, so Python's truth test on it coincides with presence. */
  function PromptAndAnswer(q: AnthropicQuery): (r: Option<string>)
    ensures r.None? <==> q.answer.None?
    ensures r.Some? ==>
              && |q.queryPrompt| <= |r.value|
              && r.value[..|q.queryPrompt|] == q.queryPrompt
              && r.value[|q.queryPrompt|..] == q.answer.value
    ensures r.Some? && Framed(q.queryPrompt) ==> r.value != []
  {
    match q.answer
    case None => None
    case Some(a) =>
      var pa := q.queryPrompt + a;
      assert pa[..|q.queryPrompt|] == q.queryPrompt;
      Some(pa)
  }

  /** `sync()` given the completion the service returned: the answer becomes
      that completion, which is also returned; the request is unchanged, and
      `prompt_and_answer()` is from then on the query prompt followed by the
      completion, whatever the answer was before. */
  function Sync(q: AnthropicQuery, completion: string): (res: (AnthropicQuery, string))
    ensures res.1 == completion
    ensures res.0.answer == Some(completion)
    ensures res.0.queryPrompt == q.queryPrompt && res.0.apiArgs == q.apiArgs
    ensures PromptAndAnswer(res.0) == Some(q.queryPrompt + completion)
  {
    (q.(answer := Some(completion)), completion)
  }

  /** The outcome of draining `stream()`: the deltas it yielded, the query
      with its final answer, and the error it raised, if any. */
  datatype StreamRun = StreamRun(yielded: seq<string>, query: AnthropicQuery, fault: Option<string>)

  /** `stream()` over the chunks the service sent, in order. Each chunk is
      added to the answer and then yielded as it came. Adding to a missing
      answer raises before the first chunk is yielded. */
  function Stream(q: AnthropicQuery, chunks: seq<string>): (run: StreamRun)
    ensures run.query.queryPrompt == q.queryPrompt && run.query.apiArgs == q.apiArgs
    ensures q.answer.None? && chunks != [] ==> run == StreamRun([], q, Some(NoneConcatError))
    ensures q.answer.Some? || chunks == [] ==> run.fault == None && run.yielded == chunks
    ensures q.answer.Some? ==> run.query.answer == Some(q.answer.value + Concat(chunks))
    ensures chunks == [] ==> run.query == q
    decreases |chunks|
  {
    if chunks == [] then
      assert q.answer.Some? ==> q.answer.value + Concat(chunks) == q.answer.value;
      StreamRun([], q, None)
    else
      match q.answer
      case None => StreamRun([], q, Some(NoneConcatError))
      case Some(a) =>
        var rest := Stream(q.(answer := Some(a + chunks[0])), chunks[1..]);
        assert chunks == [chunks[0]] + chunks[1..];
        assert a + chunks[0] + Concat(chunks[1..]) == a + (chunks[0] + Concat(chunks[1..]));
        StreamRun([chunks[0]] + rest.yielded, rest.query, rest.fault)
  }
}
