/** The first step of `call_model`: checking the prompt dictionary and
    turning it into the chat message list sent to the model. */
module Messages {
  import opened Wrappers
  import opened Errors

  /** The two roles a message can carry. */
  datatype Role = System | User

  /** `{"role": ..., "content": ...}`. */
  datatype Message = Message(role: Role, content: string)

  /** The prompt has both keys the caller requires. */
  predicate HasPromptKeys(prompt: map<string, string>) {
    "system" in prompt && "user" in prompt
  }

  /** The prompt check and message shaping of `call_model`: a prompt without
      "system" or without "user" is refused with `KeyError`; an empty system
      text gives the user message alone, any other gives the system message
      then the user message, contents copied unchanged. */
  function BuildMessages(prompt: map<string, string>): (r: Result<seq<Message>, CallError>)
    ensures r.Failure? <==> !HasPromptKeys(prompt)
    ensures r.Failure? ==> r.error == MissingPromptKey
    ensures r.Success? ==>
      && (|r.value| == 1 <==> prompt["system"] == "")
      && (|r.value| == 1 || |r.value| == 2)
      && r.value[|r.value| - 1] == Message(User, prompt["user"])
      && (|r.value| == 2 ==> r.value[0] == Message(System, prompt["system"]))
  {
    if !HasPromptKeys(prompt) then Failure(MissingPromptKey)
    else if prompt["system"] == "" then Success([Message(User, prompt["user"])])
    else Success([Message(System, prompt["system"]), Message(User, prompt["user"])])
  }

  /** The system text a message list carries: "" when it has no system
      message. */
  function SystemText(messages: seq<Message>): string {
    if |messages| == 2 && messages[0].role == System then messages[0].content else ""
  }

  /** The user text of a message list: the content of its last message. */
  function UserText(messages: seq<Message>): string {
    if messages == [] then "" else messages[|messages| - 1].content
  }

  /** Message shaping loses nothing: both texts of the prompt can be read
      back from the message list, and every prompt with the two keys is
      accepted. */
  lemma BuildMessagesRoundTrip(prompt: map<string, string>)
    requires HasPromptKeys(prompt)
    ensures BuildMessages(prompt).Success?
    ensures SystemText(BuildMessages(prompt).value) == prompt["system"]
    ensures UserText(BuildMessages(prompt).value) == prompt["user"]
  {
  }

  /** Two prompts with both keys give the same messages exactly when they
      agree on the system and the user text. */
  lemma BuildMessagesInjective(p: map<string, string>, q: map<string, string>)
    requires HasPromptKeys(p) && HasPromptKeys(q)
    ensures BuildMessages(p) == BuildMessages(q)
      <==> p["system"] == q["system"] && p["user"] == q["user"]
  {
    if BuildMessages(p) == BuildMessages(q) {
      BuildMessagesRoundTrip(p);
      BuildMessagesRoundTrip(q);
    }
  }

  /** Keys other than "system" and "user" play no part. */
  lemma BuildMessagesIgnoresOtherKeys(prompt: map<string, string>, key: string, value: string)
    requires key != "system" && key != "user"
    ensures BuildMessages(prompt[key := value]) == BuildMessages(prompt)
  {
  }
}
