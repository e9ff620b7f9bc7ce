/** The parameter dictionary `call_model` builds, and the decisions it takes
    from the model name: which backend is called, the managed endpoint's
    name, and whether `api_base` is passed along. */
module Routing {
  import opened Wrappers
  import opened Errors
  import opened PyStrings
  import opened Messages

  /** A value of `completion_params`. */
  datatype Param =
    | PStr(s: string)
    | PInt(i: int)
    | PBool(b: bool)
    | PMsgs(msgs: seq<Message>)
    | PReal(r: real)

  /** The six keys `completion_params` starts with. */
  const BaseKeys: set<string> :=
    {"model", "messages", "max_tokens", "hf_model_name", "stream", "temperature"}

  /** The dictionary literal of `call_model`: the model, the messages, the
      token budget, the tokenizer name, streaming on and temperature 0.2. */
  function CompletionParams(model: string, messages: seq<Message>, maxTokens: int, hfModelName: string): (r: map<string, Param>)
    ensures r.Keys == BaseKeys
  {
    map[
      "model" := PStr(model),
      "messages" := PMsgs(messages),
      "max_tokens" := PInt(maxTokens),
      "hf_model_name" := PStr(hfModelName),
      "stream" := PBool(true),
      "temperature" := PReal(0.2)]
  }

  /** `"sagemaker" in self.model`: the managed-endpoint path is taken. */
  predicate IsEndpointModel(model: string) {
    Contains(model, "sagemaker")
  }

  /** The models that are given the configured `api_base`: OpenAI-compatible
      servers, Ollama and Hugging Face. */
  predicate UsesApiBase(model: string) {
    Contains(model, "ollama") || Contains(model, "huggingface") || StartsWith(model, "openai/")
  }

  /** `self.model.split("/")[-1]`: the endpoint the streaming request goes to. */
  function EndpointName(model: string): string {
    LastSegment(model, '/')
  }

  /** The endpoint name is the last path segment of the model name: for a
      model `prefix/name` with no '/' in `name` it is exactly `name`, and for
      a model without '/' it is the whole model name. */
  lemma EndpointNameOfPath(prefix: string, name: string)
    requires '/' !in name
    ensures EndpointName(prefix + "/" + name) == name
    ensures EndpointName(name) == name
  {
    var s := prefix + "/" + name;
    var r := LastSegment(s, '/');
    assert s[|prefix|] == '/';
    assert forall j :: |s| - |r| <= j < |s| ==> s[j] == r[j - (|s| - |r|)];
    assert forall j :: |prefix| < j < |s| ==> s[j] == name[j - |prefix| - 1];
    assert s[|s| - |name|..] == name;
  }

  /** `params.pop(key)`: the removed value and the rest, or `KeyError`. */
  function Pop(params: map<string, Param>, key: string): (r: Result<(Param, map<string, Param>), CallError>)
    ensures r.Failure? <==> key !in params
    ensures r.Failure? ==> r.error == MissingParamKey
    ensures r.Success? ==> r.value.0 == params[key]
    ensures r.Success? ==> r.value.1.Keys == params.Keys - {key}
    ensures r.Success? ==> forall k :: k in r.value.1 ==> r.value.1[k] == params[k]
  {
    if key in params then Success((params[key], params - {key})) else Failure(MissingParamKey)
  }

  /** The parameters the generic completion call receives: the tokenizer
      name is gone, and `api_base` is set for the models that use it; all
      other entries are as given. */
  ghost function GenericParams(params: map<string, Param>, model: string, apiBase: string): map<string, Param> {
    var keys := params.Keys - {"hf_model_name"} + (if UsesApiBase(model) then {"api_base"} else {});
    map k | k in keys :: if k == "api_base" && UsesApiBase(model) then PStr(apiBase) else params[k]
  }

  /** Lines 116-125 of `call_model`: pop the tokenizer name, then add
      `api_base` when the model calls for it. */
  method PrepareGeneric(params: map<string, Param>, model: string, apiBase: string) returns (r: Result<map<string, Param>, CallError>)
    ensures r.Failure? <==> "hf_model_name" !in params
    ensures r.Failure? ==> r.error == MissingParamKey
    ensures r.Success? ==> r.value == GenericParams(params, model, apiBase)
  {
    var popped := Pop(params, "hf_model_name");
    if popped.Failure? {
      return Failure(popped.error);
    }
    var p := popped.value.1;
    if UsesApiBase(model) {
      p := p["api_base" := PStr(apiBase)];
    }
    return Success(p);
  }

  /** On the generic path the dictionary built by `call_model` loses the
      tokenizer name, carries `api_base` exactly for the models that use it,
      with the configured value, and keeps every other entry unchanged. */
  lemma GenericParamsOfCall(model: string, messages: seq<Message>, maxTokens: int, hfModelName: string, apiBase: string)
    ensures var g := GenericParams(CompletionParams(model, messages, maxTokens, hfModelName), model, apiBase);
      && "hf_model_name" !in g
      && ("api_base" in g <==> UsesApiBase(model))
      && ("api_base" in g ==> g["api_base"] == PStr(apiBase))
      && g.Keys - {"api_base"} == BaseKeys - {"hf_model_name"}
      && g["model"] == PStr(model) && g["messages"] == PMsgs(messages)
      && g["max_tokens"] == PInt(maxTokens) && g["stream"] == PBool(true)
      && forall k :: k in g && k != "api_base" ==>
           k in CompletionParams(model, messages, maxTokens, hfModelName)
           && g[k] == CompletionParams(model, messages, maxTokens, hfModelName)[k]
  {
    var c := CompletionParams(model, messages, maxTokens, hfModelName);
    var g := GenericParams(c, model, apiBase);
    assert "model" in g && "messages" in g && "max_tokens" in g && "stream" in g;
    assert "api_base" !in c;
  }

  /** Each of the three model-name rules alone turns `api_base` on. */
  lemma ApiBaseRules(vendor: string, name: string)
    ensures UsesApiBase("openai/" + name)
    ensures UsesApiBase(vendor + "ollama" + name)
    ensures UsesApiBase(vendor + "huggingface" + name)
  {
    assert StartsWith(("openai/" + name), "openai/") by {
      assert ("openai/" + name)[..7] == "openai/";
    }
    ContainsInfix(vendor, "ollama", name);
    ContainsInfix(vendor, "huggingface", name);
  }

  /** "sagemaker" anywhere in the model name selects the managed endpoint. */
  lemma EndpointRule(vendor: string, name: string)
    ensures IsEndpointModel(vendor + "sagemaker" + name)
  {
    ContainsInfix(vendor, "sagemaker", name);
  }

  /** `sub in (a + sub + b)`. */
  lemma ContainsInfix(a: string, sub: string, b: string)
    ensures Contains(a + sub + b, sub)
  {
    var s := a + sub + b;
    assert s[|a|..][..|sub|] == sub;
  }

  /** A model name naming none of the three is called without `api_base`,
      on the generic path. */
  lemma PlainModelRouting()
    ensures !UsesApiBase("gpt-4o")
    ensures !IsEndpointModel("gpt-4o")
  {
    var s := "gpt-4o";
    forall i | 0 <= i <= |s|
      ensures !StartsWith(s[i..], "ollama")
    {
      if i == 0 {
        assert s[i..][0] == 'g';
      }
    }
  }
}
