# Response handling of an OpenAPI mock server, in Dafny

This project models two pieces of response handling in swagger-mock, a mock
server driven by OpenAPI specifications.

* **The response-collection parser** (`ResponseCollectionParser::parsePointedSchema`).
  It walks the raw `responses` map of one operation. Each entry is validated on its own:
  the key must be a PHP integer or the string `"default"`, and the value must be a PHP array.
  Every failed check reports its own error at the entry's pointer, and an invalid entry is skipped.
  A valid entry is parsed by a delegate parser. Its key is normalised: every nonzero integer is kept,
  and `0` and `"default"` become the default status code. That code is written onto the parsed
  response, and the response is put into a `MockResponseMap` under it.
  In Dafny this is `ResponseCollectionParser`:
  * `CollectResponses` is the functional specification of the loop.
  * `ParsePointedSchema` is the loop itself. It fills a `MockResponseMap` object in place.
  * `ValidateResponse` is the check with its step-by-step validity flag.
  The lemmas about the result are in `ResponseCollectionProperties`.
* **The per-request choice of `MockResponseGenerator::generateResponse`.** Its code is not part
  of this model. Its observable contract is fixed by tests/Unit/Mock/MockResponseGeneratorTest.php.
  Given the negotiated media type and status, there are three outcomes:
  * the responder's response for `(status, mediaType, generateData(content[mediaType]))`;
  * the fixed fallback `(406, "text/html", "Unsupported media type")`, where 406 is "Not Acceptable",
    section 6.5.6 of RFC 7231;
  * a `DomainException` when the negotiated status is 0.
  In Dafny this is `MockResponseGenerator.Respond` and `GenerateResponse`, pure functions over
  the negotiators, the data generator and the responder, which are all passed in as functions.
  The lemmas are in `MockResponseGeneratorProperties`.

Shared data lives in `Parameters`: `Schema` (an opaque token), `MockResponse`, `MockParameters`
and the `MockResponseMap` class. `Wrappers` holds `Result`.

Two things the validation accepts that might not be expected:
* HTTP status codes run from 100 to 599, but `\is_int` accepts every PHP integer, so the model
  accepts every integer key too.
* `\is_array` accepts lists as well as maps, so `RawValue.ArrayValue` stands for both.

## Model

| member | source | states |
|---|---|---|
| `ResponseCollectionParser.WithPathElement` | src/OpenAPI/Parsing/ResponseCollectionParser.php:54 | The child pointer extends the parent pointer by exactly the entry's key. |
| `ResponseCollectionParser.ValidationErrors` | src/OpenAPI/Parsing/ResponseCollectionParser.php:76-88 | An entry gets no error exactly when it is valid. It gets exactly one error per failed check: the status-code error exactly when the key is neither an int nor "default", and the response error exactly when the value is not an array. The status-code error comes first and the response error last. Every error is at the entry's pointer. |
| `ResponseCollectionParser.ValidateResponse` | src/OpenAPI/Parsing/ResponseCollectionParser.php:74-89 | The flag ends true exactly when the key is an int or "default" and the value is an array. The errors reported are those of `ValidationErrors`, in check order. |
| `ResponseCollectionParser.ParseStatusCode` | src/OpenAPI/Parsing/ResponseCollectionParser.php:91-100 | A nonzero integer key is returned unchanged. `0` and `"default"` (whose `(int)` cast is 0) become the default status code. |
| `ResponseCollectionParser.ParsedResponse` | src/OpenAPI/Parsing/ResponseCollectionParser.php:58-61 | The stored response is the delegate's result at the entry's pointer. Its content is unchanged, and its status code is overwritten by the normalised code whatever the delegate set. |
| `ResponseCollectionParser.CollectResponses` | src/OpenAPI/Parsing/ResponseCollectionParser.php:48-72 | For every code stored in the result, the stored response's status code equals that code. The map has at most one entry per input entry. |
| `ResponseCollectionParser.ParsePointedSchema` | src/OpenAPI/Parsing/ResponseCollectionParser.php:48-72 | The loop returns a freshly allocated map and an error list, equal to `CollectResponses` of all the entries. Its invariant is that after i entries both equal `CollectResponses` of the first i. |
| `Parameters.MockResponseMap.constructor` | src/OpenAPI/Parsing/ResponseCollectionParser.php:50 | A new response map is empty. |
| `Parameters.MockResponseMap.Put` | src/OpenAPI/Parsing/ResponseCollectionParser.php:62 | `put` stores the response under the code and replaces an earlier one (assumed semantics). |
| `ResponseCollectionProperties.CollectedCodes` | src/OpenAPI/Parsing/ResponseCollectionParser.php:53-69 | The result's key set is exactly the set of normalised codes of the valid entries, so no invalid entry contributes a key. |
| `ResponseCollectionProperties.LastEntryWins` | src/OpenAPI/Parsing/ResponseCollectionParser.php:60-62 | A valid entry that no later valid entry shares a code with is stored under its code as its parsed response. |
| `ResponseCollectionProperties.ErrorsAppend` | src/OpenAPI/Parsing/ResponseCollectionParser.php:53-57 | The errors of a concatenation of entries are the errors of the first part followed by those of the second. Entries are validated independently. |
| `ResponseCollectionProperties.SingleEntryErrors` | src/OpenAPI/Parsing/ResponseCollectionParser.php:54-55 | A single entry reports exactly its validation errors, at the pointer extended by its own key. |
| `ResponseCollectionProperties.NoErrorsIffAllValid` | src/OpenAPI/Parsing/ResponseCollectionParser.php:53-57 | The parser's own checks report no error if and only if every entry is valid. |
| `ResponseCollectionProperties.InvalidEntryIgnored` | src/OpenAPI/Parsing/ResponseCollectionParser.php:55-71 | Removing an invalid entry from anywhere in the input leaves the resulting map unchanged. An invalid entry contributes nothing and does not stop the loop. |
| `ResponseCollectionProperties.EmptyResponses` | src/OpenAPI/Parsing/ResponseCollectionParser.php:50-53 | An empty `responses` node gives an empty map and no errors. |
| `ResponseCollectionProperties.SameSlot` | src/OpenAPI/Parsing/ResponseCollectionParser.php:91-100 | Two distinct valid keys normalise to the same code if and only if each of them is 0, "default" or the integer default code itself. |
| `ResponseCollectionProperties.DefaultAndZeroCollapse` | src/OpenAPI/Parsing/ResponseCollectionParser.php:60-62 | `"default"` followed by `0` gives one slot, the default code. It holds the response of the later entry, and no errors are reported. |
| `MockResponseGenerator.Respond` | tests/Unit/Mock/MockResponseGeneratorTest.php:57-118 | The generator fails if and only if the negotiated status is 0. |
| `MockResponseGenerator.GenerateResponse` | tests/Unit/Mock/MockResponseGeneratorTest.php:105-118 | Generating a response fails if and only if the status negotiator returns 0 for the request and parameters. |
| `MockResponseGeneratorProperties.SupportedMediaType` | tests/Unit/Mock/MockResponseGeneratorTest.php:62-79 | When the negotiated media type has a schema under the negotiated status, the result is the responder's response for that status and media type and for the data generated from exactly that schema. |
| `MockResponseGeneratorProperties.UnsupportedMediaType` | tests/Unit/Mock/MockResponseGeneratorTest.php:87-102 | When the media type has no schema, the result is the responder's response for (406, "text/html", "Unsupported media type"), whatever was negotiated. Any other data generator gives the same result, so it is not consulted. |
| `MockResponseGeneratorProperties.ZeroStatusRejected` | tests/Unit/Mock/MockResponseGeneratorTest.php:105-118 | A negotiated status of 0 fails with a `DomainException` "Invalid response status code negotiated". The media type, content, data generator and responder do not change that, even when no media type is available. |
| `MockResponseGeneratorProperties.GeneratedOutcomes` | tests/Unit/Mock/MockResponseGeneratorTest.php:57-118 | In terms of what the negotiators answer for the request and parameters: status 0 fails with `DomainException` "Invalid response status code negotiated". A media type with a schema under the status gives the responder's response for that status, media type and generated data. Otherwise the result is the responder's response for (406, "text/html", "Unsupported media type"). |
| `MockResponseGeneratorProperties.NegotiatorsConsulted` | tests/Unit/Mock/MockResponseGeneratorTest.php:71-72 | Two pairs of negotiators that give the same answers for the request and parameters give the same result. Only their answers for that pair matter. |
| `MockResponseGeneratorProperties.RespondsWithStoredStatus` | src/OpenAPI/Parsing/ResponseCollectionParser.php:60-62 | Over a parsed collection, the status handed to the responder on the success path equals the status code recorded on the chosen response. |
| `MockResponseGeneratorProperties.WorkedExample` | src/OpenAPI/Parsing/ResponseCollectionParser.php:53-69 | `{200: …, "default": …}` parses to the two codes 200 and the default code. A request for `application/json` at 200 renders its schema. Any other media type gets the 406 fallback. |

## Left out

- Logging: the debug message after each stored response is observability only.
- Errors and exceptions of the collaborators: the delegate, the data generator and the responder are total pure functions here. Errors the delegate reports to the shared error handler are not in the returned error sequence. Exceptions thrown by reference resolution or by any collaborator are not modelled. The error properties are about the parser's own two checks only.
- Order of the result: PHP's `MockResponseMap` keeps insertion order, and a replacing `put` keeps the earlier position. `map<int, MockResponse>` has no order, so neither is modelled.
- Reference resolution and the response parser: `ReferenceResolvingParser` and the delegate `ParserInterface` are not part of this model. They are the function parameter `delegate` from the entry's pointer to a `MockResponse`.
- `SpecificationAccessor::getSchema` is not part of this model. The entries of the `responses` node are passed in as a sequence in PHP's iteration order, and a node that is not an array is not modelled.
- `SpecificationPointer` internals: a pointer is a sequence of path elements, and `withPathElement` appends one.
- The error handler is not an object here: the reported `(message, pointer)` pairs are returned as a sequence, in reporting order.
- `MockResponse::DEFAULT_STATUS_CODE`: its value is not part of this model, so it is the parameter `defaultCode`, with no assumption on it.
- Parameters.MockResponseMap.Put: the code of `MockResponseMap::put` is not part of this model; replace-on-same-key semantics are assumed.
- Aliasing of parsed responses: `MockResponse` is a value here, and the status-code assignment is a record update. If the reference-resolving parser returned one shared object for two entries, the later assignment would also change the earlier entry. The model does not capture that.
- MockResponseGenerator.GenerateResponse: requires the negotiated status to be 0 or a key of the responses. The generator's code is not part of this model, so its behaviour for another status is unknown. The status negotiator's contract is to choose among those keys.
- MockResponseGenerator.Respond: only a status of exactly 0 is rejected, as the test fixes. How the generator treats negative statuses is not shown. A negotiated media type of `null` is not modelled.
- The media-type and status negotiators, the data generator and the responder are passed in as functions. Their implementations, Symfony's `Request`/`Response` and the structure of generated data are transport and library concerns.
