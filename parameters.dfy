/**
 * The mock parameters of one operation, as the parser builds them and the
 * response generator reads them: response definitions keyed by status code,
 * each with a content map from media type to schema.
 */
module Parameters {

  /** A parsed schema. How a schema is parsed and what it contains is outside this model,
      so a schema is an opaque token compared by identity. */
  datatype Schema = Schema(id: nat)

  /** One documented response: the status code it was parsed under and its
      content, a map from media type to schema. */
  datatype MockResponse = MockResponse(statusCode: int, content: map<string, Schema>)

  /** The parameters the response generator consults: the operation's responses
      keyed by status code. */
  datatype MockParameters = MockParameters(responses: map<int, MockResponse>)

  /**
   * The collection the parser fills in place. Only `put` is used by the parser;
   * it is taken to store the response under the code, replacing any response
   * already stored under that code.
   */
  class MockResponseMap {
    var entries: map<int, MockResponse>

    constructor ()
      ensures entries == map[]
    {
      entries := map[];
    }

    method Put(statusCode: int, response: MockResponse)
      modifies this
      ensures entries == old(entries)[statusCode := response]
    {
      entries := entries[statusCode := response];
    }
  }
}
