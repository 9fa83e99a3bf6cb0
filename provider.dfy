/** The reply-selection part of the client for the generative-language API.
    The HTTP request itself is not modelled: its outcome arrives as a value. */
module Provider {

  /** What one request produced, as the client sees it after `res.json()`:
      a payload with an `error` member, a payload whose first candidate's first
      part carries text, or a thrown error (network failure, malformed JSON, a
      missing candidate) together with its message. */
  datatype Outcome =
    | ProviderError(message: string)
    | Success(text: string)
    | Failure(message: string)

  predicate Failed(o: Outcome) {
    o.ProviderError? || o.Failure?
  }

  const ErrorPrefix: string := "Error: "

  /** The text of the bot message that answers a prompt. */
  function ReplyText(o: Outcome): (r: string)
    ensures o.Success? ==> r == o.text
    ensures Failed(o) ==> |r| == |ErrorPrefix| + |o.message| && r[..|ErrorPrefix|] == ErrorPrefix
    ensures Failed(o) ==> r[|ErrorPrefix|..] == o.message
  {
    match o
    case ProviderError(message) => ErrorPrefix + message
    case Success(text) => text
    case Failure(message) => ErrorPrefix + message
  }

  /** A provider-reported error reads exactly like any other failure with the
      same message. */
  lemma ErrorReplyCarriesMessage(o: Outcome)
    requires Failed(o)
    ensures ReplyText(o) == ReplyText(Failure(o.message))
  {
  }

  /** A mocked success `{candidates:[{content:{parts:[{text:"hi"}]}}]}` replies "hi". */
  lemma SuccessExample()
    ensures ReplyText(Success("hi")) == "hi"
  {
  }

  /** A mocked error `{error:{message:"bad key"}}` replies "Error: bad key". */
  lemma ProviderErrorExample()
    ensures ReplyText(ProviderError("bad key")) == "Error: bad key"
  {
  }
}
