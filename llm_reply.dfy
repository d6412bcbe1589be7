/**
 * What a call to the generative model gives back, as the backend sees it.
 * The services build their client once, from the API key, and never replace
 * it; every call then either has no client to make it, raises, or yields the
 * text of the response.
 */
module LlmReply {

  datatype Reply =
    | NoClient             // no API key was configured, so `self.client` is None
    | Failure              // the call, or reading its text, raised an exception
    | Answer(text: string) // `response.text` of a call that returned
}
