/**
 The boundary to the local language model. A generation request carries the
 prompt and the decoding parameters; the model's answer is opaque: either
 the text of the first choice, or a failure (any exception the call raises,
 including a malformed response object).
 */
module Engine {

  datatype Option<T> = None | Some(value: T)

  /** Keyword arguments of one `llm(...)` call. `None` means the argument is
      not passed and the library's own default applies. */
  datatype Request = Request(
    prompt: string,
    maxTokens: nat,
    temperature: real,
    topP: real,
    topK: Option<nat>,
    repeatPenalty: Option<real>,
    presencePenalty: Option<real>,
    frequencyPenalty: Option<real>,
    stop: seq<string>,
    echo: Option<bool>)

  /** `response['choices'][0]['text']`, or the call raised. */
  datatype Reply = Completed(text: string) | Failed

  /** The model, seen from the assistant: a total function of the request. */
  type Model = Request -> Reply
}
