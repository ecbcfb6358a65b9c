/** The contract of the mock response generator, and how it meets the parser's output. */
module MockResponseGeneratorProperties {
  import opened Wrappers
  import opened Parameters
  import opened ResponseCollectionParser
  import opened MockResponseGenerator

  /** A supported media type: the data generator gets exactly the schema registered
      for it, and the result is the responder's response for the negotiated status,
      the negotiated media type and the generated data. */
  lemma SupportedMediaType<R>(mediaType: string, statusCode: int, responses: map<int, MockResponse>,
                              generateData: Schema -> Payload, createResponse: (int, string, Payload) -> R)
    requires statusCode != 0 && statusCode in responses && mediaType in responses[statusCode].content
    ensures Respond(mediaType, statusCode, responses, generateData, createResponse)
         == Success(createResponse(statusCode, mediaType, generateData(responses[statusCode].content[mediaType])))
  {
  }

  /** An unsupported media type: the responder gets the fixed 406 triple whatever was
      negotiated, and the data generator is not consulted (any other generator gives
      the same result). */
  lemma UnsupportedMediaType<R>(mediaType: string, statusCode: int, responses: map<int, MockResponse>,
                                generateData: Schema -> Payload, otherGenerateData: Schema -> Payload,
                                createResponse: (int, string, Payload) -> R)
    requires statusCode != 0 && statusCode in responses && mediaType !in responses[statusCode].content
    ensures Respond(mediaType, statusCode, responses, generateData, createResponse)
         == Success(createResponse(UnsupportedMediaTypeStatusCode, DefaultMediaType, Text(UnsupportedMediaTypeMessage)))
    ensures Respond(mediaType, statusCode, responses, generateData, createResponse)
         == Respond(mediaType, statusCode, responses, otherGenerateData, createResponse)
  {
  }

  /** A negotiated status of 0 is rejected with a `DomainException`, whatever the
      media type, the content of the responses, the data generator and the responder. */
  lemma ZeroStatusRejected<R>(mediaType: string, otherMediaType: string,
                              responses: map<int, MockResponse>, otherResponses: map<int, MockResponse>,
                              generateData: Schema -> Payload, otherGenerateData: Schema -> Payload,
                              createResponse: (int, string, Payload) -> R, otherCreateResponse: (int, string, Payload) -> R)
    ensures Respond(mediaType, 0, responses, generateData, createResponse)
         == Failure(DomainException(InvalidNegotiatedStatusMessage))
    ensures Respond(mediaType, 0, responses, generateData, createResponse)
         == Respond(otherMediaType, 0, otherResponses, otherGenerateData, otherCreateResponse)
  {
  }

  /** The three outcomes of generating a response, in terms of what the two
      negotiators answer for the request and the parameters. */
  lemma GeneratedOutcomes<Req, R>(request: Req, parameters: MockParameters,
                                  negotiateMediaType: (Req, MockParameters) -> string,
                                  negotiateResponseStatus: (Req, MockParameters) -> int,
                                  generateData: Schema -> Payload, createResponse: (int, string, Payload) -> R)
    requires IsNegotiableStatus(negotiateResponseStatus(request, parameters), parameters.responses)
    ensures var mediaType := negotiateMediaType(request, parameters);
            var statusCode := negotiateResponseStatus(request, parameters);
            var r := GenerateResponse(request, parameters, negotiateMediaType, negotiateResponseStatus, generateData, createResponse);
            && (statusCode == 0 ==> r == Failure(DomainException(InvalidNegotiatedStatusMessage)))
            && (statusCode != 0 && mediaType in parameters.responses[statusCode].content ==>
                  r == Success(createResponse(statusCode, mediaType, generateData(parameters.responses[statusCode].content[mediaType]))))
            && (statusCode != 0 && mediaType !in parameters.responses[statusCode].content ==>
                  r == Success(createResponse(UnsupportedMediaTypeStatusCode, DefaultMediaType, Text(UnsupportedMediaTypeMessage))))
  {
  }

  /** Both negotiators are consulted with the request and the parameters, and only
      their answers for that pair matter: negotiators that agree there give the same result. */
  lemma NegotiatorsConsulted<Req, R>(request: Req, parameters: MockParameters,
                                     negotiateMediaType: (Req, MockParameters) -> string,
                                     negotiateResponseStatus: (Req, MockParameters) -> int,
                                     otherNegotiateMediaType: (Req, MockParameters) -> string,
                                     otherNegotiateResponseStatus: (Req, MockParameters) -> int,
                                     generateData: Schema -> Payload, createResponse: (int, string, Payload) -> R)
    requires IsNegotiableStatus(negotiateResponseStatus(request, parameters), parameters.responses)
    requires otherNegotiateMediaType(request, parameters) == negotiateMediaType(request, parameters)
    requires otherNegotiateResponseStatus(request, parameters) == negotiateResponseStatus(request, parameters)
    ensures GenerateResponse(request, parameters, negotiateMediaType, negotiateResponseStatus, generateData, createResponse)
         == GenerateResponse(request, parameters, otherNegotiateMediaType, otherNegotiateResponseStatus, generateData, createResponse)
  {
  }

  /** Over a parsed collection, the status handed to the responder on the success
      path is the status code recorded on the response definition that was chosen. */
  lemma RespondsWithStoredStatus<R>(entries: seq<Entry>, pointer: Pointer, delegate: Pointer -> MockResponse, defaultCode: int,
                                    mediaType: string, statusCode: int,
                                    generateData: Schema -> Payload, createResponse: (int, string, Payload) -> R)
    requires var responses := CollectResponses(entries, pointer, delegate, defaultCode).responses;
             statusCode != 0 && statusCode in responses && mediaType in responses[statusCode].content
    ensures var responses := CollectResponses(entries, pointer, delegate, defaultCode).responses;
            Respond(mediaType, statusCode, responses, generateData, createResponse)
            == Success(createResponse(responses[statusCode].statusCode, mediaType, generateData(responses[statusCode].content[mediaType])))
  {
  }

  /** The worked example: a `200` response with an `application/json` schema and a
      `default` response are both stored; a request for JSON at 200 renders the
      schema, and one for another media type gets the 406 fallback. */
  lemma WorkedExample<R>(pointer: Pointer, delegate: Pointer -> MockResponse, defaultCode: int, schema: Schema,
                         generateData: Schema -> Payload, createResponse: (int, string, Payload) -> R)
    requires defaultCode != 200
    requires delegate(WithPathElement(pointer, IntKey(200))).content == map["application/json" := schema]
    ensures var entries := [Entry(IntKey(200), ArrayValue), Entry(StrKey(DefaultKey), ArrayValue)];
            var responses := CollectResponses(entries, pointer, delegate, defaultCode).responses;
            && responses.Keys == {200, defaultCode}
            && Respond("application/json", 200, responses, generateData, createResponse)
               == Success(createResponse(200, "application/json", generateData(schema)))
            && Respond("text/plain", 200, responses, generateData, createResponse)
               == Success(createResponse(UnsupportedMediaTypeStatusCode, DefaultMediaType, Text(UnsupportedMediaTypeMessage)))
  {
  }
}
