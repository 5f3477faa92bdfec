/**
 * The exceptions the engine throws, one constructor per kind of `throw`
 * site, carrying the values the source puts into its message.
 */
module Errors {
  import opened Wrappers
  import opened JsValues

  datatype Error =
      /** getMatcherAsString: a matcher that is neither string, RegExp nor object; carries its `typeof`. */
    | UnsupportedMatcherType(typeName: string)
      /** `new URL(...)` rejected the request URL. */
    | InvalidUrl(url: Value)
      /** getInterceptedResponseId: the body is wanted but is null or undefined. */
    | RequestBodyRequired
      /**
       * JavaScript's own TypeError: a property read from `null` or `undefined`,
       * a method called on a value that does not have it, a non-iterable iterated.
       */
    | TypeError(what: string)
      /** getResponseBodyType: a body whose `typeof` the codec table does not list. */
    | UnsupportedBodyType(typeName: string)
      /** serializeResponseBody: a tag the codec table does not list. */
    | CannotSerialize(tag: Value)
      /** deserializeResponseBody: a stored tag the codec table does not list. */
    | CannotDeserialize(tag: Value)
      /** `JSON.parse` rejected its input. */
    | JsonSyntax
      /** PlaybackResponse / PlaybackResponseCollection constructors: a RangeError for the argument count. */
    | InvalidNumberOfArguments(count: nat)
      /** PlaybackRequestMatcher constructor: a RangeError for the argument count. */
    | UnsupportedNumberOfArguments(count: nat)
      /** PlaybackRequestMatcher constructor: the method is not a string or the matcher is falsy. */
    | InvalidArguments
      /** getNextResponse on an exhausted collection: the URL and the hit count. */
    | NoMoreResponses(url: Value, hits: nat)
      /** notifyRequestCompleted without a request in flight. */
    | NoRequestsInflight
      /** PlaybackRequestMap constructor without a file or a title. */
    | FileAndTitleRequired
      /** PlaybackRequestMap.add after seal: the matcher's text. */
    | SealedAddMatcher(matcher: string)
      /** PlaybackRequestMap.addResponse after seal: the request's URL. */
    | SealedAddResponse(url: Value)
      /** A matcher id the map does not hold. */
    | NoRequestMatcher(id: Value)
      /** getPlaybackMode: the configured mode is set but is not a known mode. */
    | InvalidPlaybackMode(mode: Value)
      /** isPlaybackMode: the queried mode is not a known mode. */
    | InvalidModeQuery(query: Value)
      /** getTestMetadata: the context has no `currentTest`. */
    | NoCurrentTest
      /** getTestMetadata: no file could be determined. */
    | NoFile
      /** getTestMetadata: the joined title is empty. */
    | NoTitle

  /** The result of an operation that may throw one of the errors above. */
  type Outcome<T> = Result<T, Error>
}
