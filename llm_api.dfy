/** The hosted completion API as the core sees it. */
module LlmApi {

  /** What one completion call yields: the reply's message content, or the text
      of the exception it raised (`str(e)`). */
  datatype CallOutcome = Response(content: string) | Failure(message: string)
}
