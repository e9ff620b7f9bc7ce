/** `AICaller.call_model`: prompt check, routing to the managed endpoint or to
    the generic completion API, collection of the streamed answer, and the
    returned triple of text, prompt token count and answer token count. */
module Caller {
  import opened Wrappers
  import opened Errors
  import opened Framing
  import opened Messages
  import opened Routing
  import opened TokenIterator

  /** `"".join(tokens)`: the texts in order, or `TypeError` as soon as one
      token is None. */
  function Join(tokens: seq<Option<string>>): (r: Result<string, CallError>)
    ensures r.Success? <==> forall k :: 0 <= k < |tokens| ==> tokens[k].Some?
    ensures r.Failure? ==> r.error == JoinTypeError
    decreases |tokens|
  {
    if tokens == [] then Success("")
    else if tokens[0].None? then Failure(JoinTypeError)
    else
      var rest := Join(tokens[1..]);
      assert forall k :: 1 <= k < |tokens| ==> tokens[k] == tokens[1..][k - 1];
      if rest.Failure? then Failure(JoinTypeError) else Success(tokens[0].value + rest.value)
  }

  /** A single token joins to its own text. */
  lemma JoinSingle(s: string)
    ensures Join([Some(s)]) == Success(s)
  {
    assert [Some(s)][1..] == [];
    assert s + "" == s;
  }

  /** Joining keeps the order of the tokens: joining two runs of tokens is
      joining each and concatenating the texts, and the whole fails exactly
      when one of the runs does. */
  lemma {:induction false} JoinAppend(a: seq<Option<string>>, b: seq<Option<string>>)
    ensures Join(a + b).Success? <==> Join(a).Success? && Join(b).Success?
    ensures Join(a + b).Success? ==> Join(a + b).value == Join(a).value + Join(b).value
    decreases |a|
  {
    if a == [] {
      assert a + b == b;
    } else {
      assert (a + b)[0] == a[0] && (a + b)[1..] == a[1..] + b;
      JoinAppend(a[1..], b);
      if a[0].Some? && Join(a[1..]).Success? && Join(b).Success? {
        assert a[0].value + (Join(a[1..]).value + Join(b).value)
          == (a[0].value + Join(a[1..]).value) + Join(b).value;
      }
    }
  }

  /** The texts laid end to end. */
  function Concatenation(texts: seq<string>): string {
    if texts == [] then "" else texts[0] + Concatenation(texts[1..])
  }

  /** Tokens that are all strings join to their concatenation. */
  lemma {:induction false} JoinTexts(texts: seq<string>)
    ensures Join(seq(|texts|, k requires 0 <= k < |texts| => Some(texts[k]))) == Success(Concatenation(texts))
    decreases |texts|
  {
    var tokens := seq(|texts|, k requires 0 <= k < |texts| => Some(texts[k]));
    if texts != [] {
      JoinTexts(texts[1..]);
      assert tokens[1..] == seq(|texts[1..]|, k requires 0 <= k < |texts[1..]| => Some(texts[1..][k]));
    }
  }

  /** The managed endpoint's response body: the payloads its byte iterator
      delivers, and whether it then breaks off with an exception instead of
      ending. */
  datatype Body = Body(payloads: seq<seq<byte>>, dropped: bool)

  /** The answer the managed-endpoint path assembles from a whole byte
      stream: its tokens, decoded in order, joined. */
  function StreamText(codec: Codec, bytes: seq<byte>, dropped: bool): Result<string, CallError> {
    match Outcome(codec, bytes, dropped)
    case Failure(e) => Failure(e)
    case Success(tokens) => Join(tokens)
  }

  /** Decoded tokens in front of a later outcome, in front of a still later one. */
  lemma PrependTwice(a: seq<Option<string>>, b: seq<Option<string>>, later: Result<seq<Option<string>>, CallError>)
    ensures Prepend(a, Prepend(b, later)) == Prepend(a + b, later)
  {
    match later
    case Failure(e) =>
    case Success(ts) => assert a + (b + ts) == (a + b) + ts;
  }

  /** Lines 99-104: iterate a `MessageTokenIterator` over the response body,
      collect every token in order, and join them. The result is the join of
      the tokens of every complete line of the delivered bytes, however those
      bytes were cut into payloads; a line that fails to decode ends the
      call with its error, and a body that breaks off ends it with the
      stream's exception once the complete lines before the break are read. */
  method CollectOutput(codec: Codec, body: Body) returns (r: Result<string, CallError>)
    ensures r == StreamText(codec, Concat(body.payloads), body.dropped)
  {
    var it := new MessageTokenIterator(body.payloads, body.dropped, codec);
    var output: seq<Option<string>> := [];
    ghost var whole := Outcome(codec, Concat(body.payloads), body.dropped);
    assert Prepend([], whole) == whole by {
      match whole
      case Failure(e) =>
      case Success(ts) => assert [] + ts == ts;
    }
    while true
      invariant it.Valid() && it.codec == codec && it.dropped == body.dropped
      invariant Prepend(output, Outcome(codec, it.Unread(), body.dropped)) == whole
      decreases |it.Unread()|
    {
      ghost var c := it.At();
      ghost var u := it.Unread();
      var step := it.Next();
      StepDecodes(codec, body.dropped, c);
      assert Accounts(codec, body.dropped, step, u, it.Unread());
      match step
      case Stop =>
        assert output + [] == output;
        r := Join(output);
        return;
      case Fail(e) =>
        r := Failure(e);
        return;
      case Yield(t) =>
        PrependTwice(output, [t], Outcome(codec, it.Unread(), body.dropped));
        output := output + [t];
    }
  }

  /** A stream of complete records whose tokens are the strings `texts`,
      followed by an unterminated tail, answers with those texts laid end to
      end, in order; if it then breaks off, the answer is the stream's
      exception instead. */
  lemma StreamTextOfRecords(codec: Codec, records: seq<seq<byte>>, tail: seq<byte>, texts: seq<string>)
    requires LineFree(records) && NL !in tail
    requires DecodeLines(codec, records) == Success(seq(|texts|, k requires 0 <= k < |texts| => Some(texts[k])))
    ensures StreamText(codec, Terminated(records) + tail, false) == Success(Concatenation(texts))
    ensures StreamText(codec, Terminated(records) + tail, true) == Failure(StreamError)
  {
    RecordsDecodeInOrder(codec, records, tail);
    OutcomeEnds(codec, Terminated(records) + tail);
    JoinTexts(texts);
  }

  /** One element of `chunk.choices`: the delta's content, possibly None. */
  datatype Choice = Choice(content: Option<string>)

  /** A streamed completion chunk. */
  datatype Chunk = Chunk(choices: seq<Choice>)

  /** The chunks the loop of lines 131-139 keeps: those delivered before the
      first one with no choices, whose `choices[0]` raises `IndexError`
      inside the `try`. An exception of the response iterator itself ends
      `delivered`; either way the error is caught and the chunks collected
      so far are kept. */
  function Retained(delivered: seq<Chunk>): (kept: seq<Chunk>)
    ensures kept <= delivered
    ensures forall k :: 0 <= k < |kept| ==> kept[k].choices != []
    ensures |kept| == |delivered| || delivered[|kept|].choices == []
    decreases |delivered|
  {
    if delivered == [] || delivered[0].choices == [] then []
    else
      var rest := Retained(delivered[1..]);
      assert forall k :: 1 <= k < |delivered| ==> delivered[1..][k - 1] == delivered[k];
      [delivered[0]] + rest
  }

  /** The three properties of `Retained` single it out: it is the longest
      prefix of chunks that all have choices. */
  lemma {:induction false} RetainedUnique(delivered: seq<Chunk>, kept: seq<Chunk>)
    requires kept <= delivered
    requires forall k :: 0 <= k < |kept| ==> kept[k].choices != []
    requires |kept| == |delivered| || delivered[|kept|].choices == []
    ensures kept == Retained(delivered)
  {
    var r := Retained(delivered);
    assert forall k :: 0 <= k < |kept| ==> kept[k] == delivered[k];
    assert forall k :: 0 <= k < |r| ==> r[k] == delivered[k];
    assert kept == delivered[..|kept|] && r == delivered[..|r|];
  }

  /** Chunks with choices are all kept. */
  lemma RetainedAll(delivered: seq<Chunk>)
    requires forall k :: 0 <= k < |delivered| ==> delivered[k].choices != []
    ensures Retained(delivered) == delivered
  {
  }

  /** The `try` around `for chunk in response: ... chunks.append(chunk)`. */
  method CollectChunks(delivered: seq<Chunk>) returns (chunks: seq<Chunk>)
    ensures chunks == Retained(delivered)
  {
    chunks := [];
    var i := 0;
    while i < |delivered|
      invariant 0 <= i <= |delivered|
      invariant chunks == delivered[..i]
      invariant forall k :: 0 <= k < i ==> delivered[k].choices != []
    {
      if delivered[i].choices == [] {
        break;
      }
      chunks := chunks + [delivered[i]];
      i := i + 1;
    }
    RetainedUnique(delivered, chunks);
  }

  /** The assembled answer: `choices[0].message.content` and the two counts
      of `usage`. */
  datatype Response = Response(content: string, promptTokens: int, completionTokens: int)

  /** Everything `call_model` calls but does not define:
      `invokeEndpoint` is boto3's `invoke_endpoint_with_response_stream`,
      yielding `response_stream["Body"]` (None: the call raised); `completion` is `litellm.completion`, yielding the chunks its
      stream delivers (None: the call raised); `buildResponse` is
      `litellm.stream_chunk_builder` (None: no usable response);
      `chatTemplate` and `tokenCount` are the tokenizer's
      `apply_chat_template` and `len(tokenize(...))`. */
  datatype Backend = Backend(
    codec: Codec,
    invokeEndpoint: (string, map<string, Param>) -> Option<Body>,
    completion: map<string, Param> -> Option<seq<Chunk>>,
    buildResponse: (seq<Chunk>, seq<Message>) -> Option<Response>,
    chatTemplate: seq<Message> -> string,
    tokenCount: string -> nat)

  /** The environment variables the boto3 client is built from. */
  const AwsKeys: set<string> := {"AWS_REGION_NAME", "AWS_ACCESS_KEY_ID", "AWS_SECRET_ACCESS_KEY"}

  /** `AICaller(model, api_base, hf_model_name)`; the fields never change.
      The source defaults `api_base` and `hf_model_name` to "". */
  datatype AICaller = AICaller(model: string, apiBase: string, hfModelName: string)

  /** The default of `max_tokens` in `call_model`. */
  const DefaultMaxTokens: int := 4096

  /** `call_model(prompt, max_tokens)`, with `env` the names set in
      `os.environ`. A prompt without both keys is refused before anything is
      sent. A model naming "sagemaker" needs the three AWS variables, streams
      from the endpoint named by the last path segment of the model name
      with the full parameter dictionary, and answers with the joined tokens
      of the delivered bytes and the tokenizer's counts. Any other model is
      called through the generic API with the tokenizer name dropped and
      `api_base` added for the models that use it, and answers with what the
      chunk builder makes of the retained chunks. */
  method CallModel(caller: AICaller, env: set<string>, backend: Backend, prompt: map<string, string>, maxTokens: int)
    returns (r: Result<(string, int, int), CallError>)
    ensures !HasPromptKeys(prompt) ==> r == Failure(MissingPromptKey)
    ensures HasPromptKeys(prompt) ==>
      var messages := BuildMessages(prompt).value;
      var params := CompletionParams(caller.model, messages, maxTokens, caller.hfModelName);
      && (IsEndpointModel(caller.model) && !(AwsKeys <= env) ==> r == Failure(MissingEnvKey))
      && (IsEndpointModel(caller.model) && AwsKeys <= env ==>
            var events := backend.invokeEndpoint(EndpointName(caller.model), params);
            && (events.None? ==> r == Failure(TransportError))
            && (events.Some? ==>
                  var text := StreamText(backend.codec, Concat(events.value.payloads), events.value.dropped);
                  && (text.Failure? ==> r == Failure(text.error))
                  && (text.Success? ==> r == Success((text.value,
                        backend.tokenCount(backend.chatTemplate(messages)) as int,
                        backend.tokenCount(text.value) as int)))))
      && (!IsEndpointModel(caller.model) ==>
            var delivered := backend.completion(GenericParams(params, caller.model, caller.apiBase));
            && (delivered.None? ==> r == Failure(TransportError))
            && (delivered.Some? ==>
                  var response := backend.buildResponse(Retained(delivered.value), messages);
                  && (response.None? ==> r == Failure(ResponseError))
                  && (response.Some? ==> r == Success((response.value.content,
                        response.value.promptTokens, response.value.completionTokens)))))
  {
    var built := BuildMessages(prompt);
    if built.Failure? {
      return Failure(built.error);
    }
    var messages := built.value;
    var params := CompletionParams(caller.model, messages, maxTokens, caller.hfModelName);
    if IsEndpointModel(caller.model) {
      if !(AwsKeys <= env) {
        return Failure(MissingEnvKey);
      }
      var events := backend.invokeEndpoint(EndpointName(caller.model), params);
      if events.None? {
        return Failure(TransportError);
      }
      var output := CollectOutput(backend.codec, events.value);
      if output.Failure? {
        return Failure(output.error);
      }
      var promptTokens := backend.tokenCount(backend.chatTemplate(messages));
      var completionTokens := backend.tokenCount(output.value);
      return Success((output.value, promptTokens as int, completionTokens as int));
    } else {
      var prepared := PrepareGeneric(params, caller.model, caller.apiBase);
      var delivered := backend.completion(prepared.value);
      if delivered.None? {
        return Failure(TransportError);
      }
      var chunks := CollectChunks(delivered.value);
      var response := backend.buildResponse(chunks, messages);
      if response.None? {
        return Failure(ResponseError);
      }
      return Success((response.value.content, response.value.promptTokens, response.value.completionTokens));
    }
  }
}
