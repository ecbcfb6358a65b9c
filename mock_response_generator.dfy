/**
 * The per-request choice of the mock response generator. The media type and
 * the status code come from the two negotiators; the generator then either
 * renders the schema registered for that media type under that status, falls
 * back to a fixed "Not Acceptable" response (status 406, section 6.5.6 of
 * RFC 7231) when the media type has no schema, or fails when the negotiated
 * status is 0. The data generator and the responder are parameters.
 */
module MockResponseGenerator {
  import opened Wrappers
  import opened Parameters

  const UnsupportedMediaTypeStatusCode := 406
  const DefaultMediaType := "text/html"
  const UnsupportedMediaTypeMessage := "Unsupported media type"
  const InvalidNegotiatedStatusMessage := "Invalid response status code negotiated"

  /** Data handed to the responder: a literal text, or example data made by the
      data generator, whose structure is outside this model. */
  datatype Payload = Text(text: string) | Example(id: nat)

  /** The `DomainException` the generator throws, with its message. */
  datatype GenerationError = DomainException(message: string)

  /** A negotiated status the generator can handle: 0 (rejected), or the code of
      one of the operation's responses. */
  predicate IsNegotiableStatus(statusCode: int, responses: map<int, MockResponse>)
  {
    statusCode == 0 || statusCode in responses
  }

  /** The response for a negotiated media type and status code. */
  function Respond<R>(mediaType: string, statusCode: int, responses: map<int, MockResponse>,
                      generateData: Schema -> Payload, createResponse: (int, string, Payload) -> R)
    : (r: Result<R, GenerationError>)
    requires IsNegotiableStatus(statusCode, responses)
    ensures r.Failure? <==> statusCode == 0
  {
    if statusCode == 0 then
      Failure(DomainException(InvalidNegotiatedStatusMessage))
    else
      var content := responses[statusCode].content;
      if mediaType in content then
        Success(createResponse(statusCode, mediaType, generateData(content[mediaType])))
      else
        Success(createResponse(UnsupportedMediaTypeStatusCode, DefaultMediaType, Text(UnsupportedMediaTypeMessage)))
  }

  /** `generateResponse`: consult both negotiators with the request and the
      parameters, then respond with what they chose. */
  function GenerateResponse<Req, R>(request: Req, parameters: MockParameters,
                                    negotiateMediaType: (Req, MockParameters) -> string,
                                    negotiateResponseStatus: (Req, MockParameters) -> int,
                                    generateData: Schema -> Payload, createResponse: (int, string, Payload) -> R)
    : (r: Result<R, GenerationError>)
    requires IsNegotiableStatus(negotiateResponseStatus(request, parameters), parameters.responses)
    ensures r.Failure? <==> negotiateResponseStatus(request, parameters) == 0
  {
    var mediaType := negotiateMediaType(request, parameters);
    var statusCode := negotiateResponseStatus(request, parameters);
    Respond(mediaType, statusCode, parameters.responses, generateData, createResponse)
  }
}
