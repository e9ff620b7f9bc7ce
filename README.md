# AICaller, modelled in Dafny

This project models `cover_agent/AICaller.py`. That module sends a prompt to a language model and returns a triple: the answer text, the prompt's token count and the answer's token count.

Models whose name contains "sagemaker" go to a managed endpoint. The bytes it streams back are decoded with `MessageTokenIterator`, and the decoded tokens are joined into the answer. Every other model goes through the generic streaming completion API. Its chunks are collected until the stream ends or fails, then handed to a chunk builder.

The files:

- `wrappers.dfy`
  - `Option` and `Result`.
  - `CallError`, with one constructor for each exception the call can end with.
- `py_strings.dfy`: the Python string built-ins the caller uses.
  - `lstrip` and `rstrip`, which strip a set of characters.
  - `startswith` and `in`.
  - `split` and `join` with a one-character separator.
- `framing.dfy`: newline framing of a byte buffer.
  - The first terminator.
  - `BytesIO.readline()` at a position.
  - The complete lines of a byte string and its unterminated tail.
- `token_iterator.dfy`
  - The decoding of one record into a token, and of a whole byte stream.
  - The class `MessageTokenIterator`. Its fields are the buffer, the read position, the payloads still to come, and whether the byte iterator breaks off after them.
- `messages.dfy`: the prompt check and the chat message list.
- `routing.dfy`: the parameter dictionary, the endpoint name, `pop("hf_model_name")` and the `api_base` rule.
- `ai_caller.dfy`
  - `"".join` over the tokens.
  - The token accumulation loop and the chunk collection loop.
  - `call_model` itself.

`MessageTokenIterator.__next__` updates its fields in place, so it is modelled as a class method with a loop.

- The loop is that method (`Next`). It is proved equal to the function `NextLine`.
- Lemmas give the meaning of `NextLine`:
  - it returns the first complete line of the unread bytes and moves the cursor just past its terminator;
  - it only moves bytes from the source into the buffer;
  - it pulls a payload only while no complete line is buffered;
  - it stops only when no complete line is left.
- `Caller.CollectOutput` runs the iterator to its end. It is proved to return the join of the tokens of every complete line of the concatenated payloads. The result therefore depends on the delivered bytes, not on how they are cut into payloads.
- The endpoint's body is a `Body`: the payloads its byte iterator delivers, and a flag `dropped` saying whether `next(self.byte_iterator)` then raises instead of ending with StopIteration. A dropped body ends the call with `StreamError` once the complete lines before the break are decoded. A line that fails to decode before the break raises its own error first.

The UTF-8 and JSON decoders are the two fields of `Codec`, left uninterpreted. A record content that is neither a string nor null, such as a number or a list, is mapped to `Null` by `Codec.delta`. Like null, it is yielded as is and makes `"".join` raise `TypeError`. boto3, litellm and the tokenizer are the fields of `Backend`. The environment is the set of variable names it defines.

`CallModel` takes every argument explicitly. The source's defaults are `max_tokens=4096` (the constant `DefaultMaxTokens`) and `api_base=""` and `hf_model_name=""` for the constructor (the fields of `AICaller`).

The code differs from a plain reading of the intended behaviour in two places, and the model follows the code.

- The frame cleaning `lstrip("data:").rstrip("/n")` strips character sets. It strips the characters `d`, `a`, `t` and `:` in front and `/` and `n` at the end, not the marker `data:` or a newline.
  - `CleanLineOfFrame` states when this gives the JSON text exactly.
- A record whose delta holds an explicit JSON `null` content yields `None`, not "". The final `"".join` then raises `TypeError`.
  - `ContentDefault` states this behaviour, and `Caller.Join` states the error.

## Model

| member | source | states |
|---|---|---|
| Messages.BuildMessages | cover_agent/AICaller.py:72-82 | refused with KeyError exactly when "system" or "user" is missing; otherwise one user message when the system text is empty, otherwise the system message and then the user message, with the contents copied |
| Messages.BuildMessagesRoundTrip | cover_agent/AICaller.py:76-82 | every prompt with both keys is accepted, and both texts can be read back from the message list |
| Messages.BuildMessagesInjective | cover_agent/AICaller.py:76-82 | two valid prompts give the same messages if and only if they agree on both texts |
| Messages.BuildMessagesIgnoresOtherKeys | cover_agent/AICaller.py:72-82 | keys other than "system" and "user" have no effect |
| Routing.CompletionParams | cover_agent/AICaller.py:86-93 | the parameter dictionary has exactly the six base keys |
| Routing.EndpointNameOfPath | cover_agent/AICaller.py:98 | the endpoint name of `prefix/name` is `name`, and a model name without '/' is its own endpoint name |
| Routing.Pop | cover_agent/AICaller.py:116 | `pop` fails with KeyError exactly when the key is absent; otherwise it returns the key's value and a map that holds every other key, each with its old value |
| Routing.PrepareGeneric | cover_agent/AICaller.py:116-125 | fails exactly when the tokenizer key is missing; otherwise the result is the dictionary without the tokenizer name, plus `api_base` for the models that use it |
| Routing.GenericParamsOfCall | cover_agent/AICaller.py:86-125 | on the generic path the tokenizer name is gone; `api_base` is present, with the configured value, if and only if the model uses it; every other entry, `temperature` included, keeps its value from lines 86-93 |
| Routing.ApiBaseRules | cover_agent/AICaller.py:120-124 | each of the three model-name rules alone turns on `api_base` |
| Routing.EndpointRule | cover_agent/AICaller.py:94 | "sagemaker" anywhere in the model name selects the endpoint path |
| Routing.PlainModelRouting | cover_agent/AICaller.py:94-124 | a plain model name such as "gpt-4o" takes the generic path without `api_base` |
| PyStrings.LStripSpec | cover_agent/AICaller.py:31 | lstrip removes the longest prefix made of strip characters |
| PyStrings.RStripSpec | cover_agent/AICaller.py:31 | rstrip removes the longest suffix made of strip characters |
| PyStrings.LStripSkipsSetPrefix | cover_agent/AICaller.py:31 | any prefix drawn from the strip set is removed, whatever its order or repetition |
| PyStrings.Split | cover_agent/AICaller.py:98 | split gives at least one piece, and no piece contains the separator |
| PyStrings.JoinSplit | cover_agent/AICaller.py:98 | joining the pieces of a split restores the string |
| PyStrings.SplitJoin | cover_agent/AICaller.py:98 | splitting a join of separator-free pieces gives back the pieces |
| PyStrings.LastSegment | cover_agent/AICaller.py:98 | `split(sep)[-1]` is the suffix after the last separator, and it has no separator |
| Framing.FirstNewline | cover_agent/AICaller.py:24 | the position found is a terminator with none before it; there is none exactly when the bytes hold no terminator |
| Framing.ReadLineSpec | cover_agent/AICaller.py:23-24 | `readline()` returns a prefix of the bytes after the position; it ends with a terminator if and only if one is there, has no earlier terminator, and returns the rest when there is none |
| Framing.ReadLineEnds | cover_agent/AICaller.py:24-27 | a line that ends with a terminator lies inside the buffer, and its terminator is the first one |
| Framing.LinesReassemble | cover_agent/AICaller.py:22-33 | every byte string is its complete lines, each terminated, followed by a tail without a terminator |
| Framing.LinesUnique | cover_agent/AICaller.py:22-33 | that decomposition is unique |
| Framing.LinesAppend | cover_agent/AICaller.py:22-35 | cutting the bytes just after a terminator cuts the line sequence there |
| Framing.ConcatAppend | cover_agent/AICaller.py:33-35 | the buffer built by appending payloads is their concatenation, whatever the grouping |
| TokenIterator.CleanLineOfFrame | cover_agent/AICaller.py:31 | a frame that is a marker of "data:" characters followed by JSON text is handed to the JSON decoder as exactly that text, under the stated conditions on its first and last characters |
| TokenIterator.ContentDefault | cover_agent/AICaller.py:32 | a delta without "content" yields "", and an explicit null yields None |
| TokenIterator.DecodeLinesSpec | cover_agent/AICaller.py:29-32 | decoding lines gives one token per line, in order, if and only if every line decodes; otherwise it gives the error of the first line that fails |
| TokenIterator.RecordsDecodeInOrder | cover_agent/AICaller.py:21-35 | terminated records followed by an unterminated tail decode to exactly the records' tokens |
| TokenIterator.DecodeStreamAppend | cover_agent/AICaller.py:21-35 | decoding bytes cut after a terminator is decoding the two parts in turn |
| TokenIterator.TrailingBytesIgnored | cover_agent/AICaller.py:27-33 | unterminated bytes at the end of the stream yield no token |
| TokenIterator.NextLineConsumesFirstLine | cover_agent/AICaller.py:21-35 | one `__next__` returns the first complete line of the unread bytes, advances the read position by the line's length plus one, and leaves exactly the rest unread; with no complete line the source is drained and nothing is consumed |
| TokenIterator.NextLineMovesBytes | cover_agent/AICaller.py:33-35 | one `__next__` keeps the cursor invariant, takes a prefix of the remaining payloads, only appends to the buffer, and conserves buffer followed by source |
| TokenIterator.NextLinePullsLazily | cover_agent/AICaller.py:27-35 | a payload is pulled only while the buffer holds no complete line: the returned line's terminator lies in the last payload pulled |
| TokenIterator.OutcomeEnds | cover_agent/AICaller.py:27-33 | a byte iterator that ends normally yields exactly the tokens its bytes decode to; one that raises at line 33 fails with the first bad line's error if there is one, otherwise with the stream's exception |
| TokenIterator.StepDecodes | cover_agent/AICaller.py:21-35 | a token from `__next__` is the first token of the unread bytes, and the rest of their outcome is that of what remains unread; an exception is their decoding error, or the stream's exception once no complete line is left; StopIteration means the stream ended and they decode to no token |
| TokenIterator.MessageTokenIterator.constructor | cover_agent/AICaller.py:13-16 | an empty buffer, read position 0, every payload still to come, and the way the byte iterator will end |
| TokenIterator.MessageTokenIterator.Next | cover_agent/AICaller.py:21-35 | the loop of `__next__` performs exactly `NextLine` from the state before the call, and yields the decoding of the line it returns; without a line it stops, or raises the stream's exception when the body breaks off |
| Caller.Join | cover_agent/AICaller.py:104 | `"".join` succeeds if and only if no token is None, and fails with TypeError otherwise |
| Caller.JoinTexts | cover_agent/AICaller.py:104 | tokens that are all strings join to the strings laid end to end, in order |
| Caller.JoinSingle | cover_agent/AICaller.py:104 | one token joins to its own text |
| Caller.JoinAppend | cover_agent/AICaller.py:104 | joining two runs of tokens concatenates their texts in order, and fails exactly when one run does |
| Caller.CollectOutput | cover_agent/AICaller.py:99-104 | accumulating every token until StopIteration and joining gives the join of the tokens of all complete lines of the concatenated payloads, so it does not depend on the split into payloads; a decoding error ends the call with that error, and a body that breaks off ends it with the stream's exception once no earlier line has failed |
| Caller.StreamTextOfRecords | cover_agent/AICaller.py:99-104 | any sequence of records whose tokens are the strings `texts`, the empty one included, answers with those strings concatenated in order, whatever unterminated tail follows; if the body then breaks off, the answer is the stream's exception |
| Caller.Retained | cover_agent/AICaller.py:131-139 | the kept chunks are a prefix of those delivered, all with choices, which stops only at the end or just before a chunk without choices |
| Caller.RetainedUnique | cover_agent/AICaller.py:131-139 | those three properties determine the kept chunks |
| Caller.RetainedAll | cover_agent/AICaller.py:131-139 | when every chunk has choices, all of them are kept |
| Caller.CollectChunks | cover_agent/AICaller.py:129-139 | the collection loop with its `try` keeps exactly the retained chunks |
| Caller.CallModel | cover_agent/AICaller.py:61-164 | each path's outcome: KeyError for a bad prompt; KeyError for a missing AWS variable; on the endpoint path, the stream of the endpoint named by the model's last path segment, with the whole dictionary, answered with the joined tokens and the tokenizer's counts, or ended by a decoding error or the stream's exception; on the generic path, the pruned dictionary, answered with what the chunk builder makes of the retained chunks; transport and builder failures as errors |

## Left out

- The network calls are parameters of `Backend`: the boto3 client, `invoke_endpoint_with_response_stream`, `litellm.completion` and `litellm.stream_chunk_builder`. The model covers only their results, and a failure of any of them.
- The exception that `next(self.byte_iterator)` raises when the endpoint's stream breaks off is modelled as the single error `StreamError`. Its type and message are not kept.
- The event-stream wrapper of the endpoint's body is not modelled. Every event is taken to be a `PayloadPart` carrying bytes. A `KeyError` on any other kind of event is not modelled.
- `bytes.decode("utf-8")` and `json.loads` are the two uninterpreted functions of `Codec`.
- The tokenizer is the pair `chatTemplate` and `tokenCount` of `Backend`. Loading it in `AICaller.__init__` with `AutoTokenizer.from_pretrained` is not modelled.
- The `print` calls, `time.sleep(0.01)`, the Weights & Biases trace on lines 144-157, and the clock it reads are left out. They are assumed not to raise. If one of them did, the model would not capture it:
  - an exception from the trace or `root_span.log` on lines 144-157, or from the `print` on line 103, would end the call instead of returning, since none of them is inside a `try`;
  - an exception from the `print` on line 133 would be caught by the `except` of line 138 and end chunk collection early, without appending that chunk.
  - Line 154 reads `model_response["choices"][0]` again, but that adds no error case the return on line 161 does not already have.
- The region name and the two AWS keys are checked only for presence in the environment, not for their values.
- `temperature` is the real 0.2. Python's floating-point representation is not modelled.
- The mid-stream exception of the generic path can be any exception. It is modelled as the end of the delivered chunk sequence; its message is not kept.
- `chunk.choices[0].delta.content or ""` is only printed. The model keeps the choices of a chunk but not the structure of its delta.
- `__iter__` returns the iterator itself; it needs no model.
- `get_realtime_response_stream` is folded into `Backend.invokeEndpoint`, which receives the endpoint name and the parameters. The JSON encoding of the body and the HTTP headers are not modelled.
- TokenIterator.MessageTokenIterator.Next: its contract ties the call to the function `NextLine`, not to the byte-level meaning directly. The meaning is proved about `NextLine` in `NextLineConsumesFirstLine`, `NextLineMovesBytes`, `NextLinePullsLazily` and `StepDecodes`.
