/**
 * The parser that turns the raw `responses` map of one operation into a map
 * from status code to mock response. Each raw entry is validated on its own;
 * an invalid entry is reported and skipped, a valid one is handed to the
 * delegate parser, stamped with its normalised status code and stored.
 */
module ResponseCollectionParser {
  import opened Parameters

  /** A key of the raw `responses` map. PHP array keys are integers or strings,
      and PHP has already turned numeric strings such as "200" into integers. */
  datatype RawKey = IntKey(i: int) | StrKey(s: string)

  /** A value of the raw `responses` map: a PHP array (a list or a map), or anything else. */
  datatype RawValue = ArrayValue | ScalarValue

  /** One `statusCode => responseSpecification` pair of the raw map. */
  datatype Entry = Entry(key: RawKey, value: RawValue)

  /** A position in the specification document: the path elements from its root. */
  type Pointer = seq<RawKey>

  /** An error reported to the error handler: its message and where it was found. */
  datatype ParseError = ParseError(message: string, pointer: Pointer)

  /** The collection and the errors one parse produces. */
  datatype Collection = Collection(responses: map<int, MockResponse>, errors: seq<ParseError>)

  const DefaultKey := "default"
  const InvalidStatusCodeMessage := "Invalid status code. Must be integer or \"default\"."
  const InvalidResponseMessage := "Invalid response specification."

  /** The pointer to the child `element` of the node at `pointer`. */
  function WithPathElement(pointer: Pointer, element: RawKey): (child: Pointer)
    ensures |child| == |pointer| + 1
    ensures child[..|pointer|] == pointer && child[|pointer|] == element
  {
    pointer + [element]
  }

  /** A status code must be a PHP integer or the string "default"; any integer
      is accepted, there is no range check. */
  predicate IsValidStatusCode(key: RawKey)
  {
    key.IntKey? || key == StrKey(DefaultKey)
  }

  /** A response specification must be a PHP array. */
  predicate IsValidSpecification(value: RawValue)
  {
    value.ArrayValue?
  }

  predicate IsValidEntry(entry: Entry)
  {
    IsValidStatusCode(entry.key) && IsValidSpecification(entry.value)
  }

  /** The errors reported for one entry at `pointer`: one per failed check, in
      the order the checks run. Both checks always run. */
  function ValidationErrors(entry: Entry, pointer: Pointer): (errors: seq<ParseError>)
    ensures errors == [] <==> IsValidEntry(entry)
    ensures ParseError(InvalidStatusCodeMessage, pointer) in errors <==> !IsValidStatusCode(entry.key)
    ensures ParseError(InvalidResponseMessage, pointer) in errors <==> !IsValidSpecification(entry.value)
    ensures |errors| == (if IsValidStatusCode(entry.key) then 0 else 1) + (if IsValidSpecification(entry.value) then 0 else 1)
    ensures !IsValidStatusCode(entry.key) ==> errors[0] == ParseError(InvalidStatusCodeMessage, pointer)
    ensures !IsValidSpecification(entry.value) ==> errors[|errors| - 1] == ParseError(InvalidResponseMessage, pointer)
    ensures forall error :: error in errors ==> error.pointer == pointer
  {
    (if IsValidStatusCode(entry.key) then [] else [ParseError(InvalidStatusCodeMessage, pointer)])
    + (if IsValidSpecification(entry.value) then [] else [ParseError(InvalidResponseMessage, pointer)])
  }

  /** Checks one entry, clearing the validity flag and reporting an error for
      each check that fails. */
  method ValidateResponse(statusCode: RawKey, responseSpecification: RawValue, pointer: Pointer)
    returns (isValid: bool, reported: seq<ParseError>)
    ensures isValid <==> IsValidEntry(Entry(statusCode, responseSpecification))
    ensures reported == ValidationErrors(Entry(statusCode, responseSpecification), pointer)
  {
    isValid := true;
    reported := [];
    if !statusCode.IntKey? && StrKey(DefaultKey) != statusCode {
      isValid := false;
      reported := reported + [ParseError(InvalidStatusCodeMessage, pointer)];
    }
    if !responseSpecification.ArrayValue? {
      isValid := false;
      reported := reported + [ParseError(InvalidResponseMessage, pointer)];
    }
  }

  /** PHP's `(int)` cast of a valid key: the integer itself, and 0 for "default". */
  function IntCast(key: RawKey): int
    requires IsValidStatusCode(key)
  {
    if key.IntKey? then key.i else 0
  }

  /** The keys that normalise to the default status code. */
  predicate IsDefaultKey(key: RawKey)
  {
    key == IntKey(0) || key == StrKey(DefaultKey)
  }

  /** The normalised status code of a valid key: every nonzero integer is kept,
      and 0 and "default" become `defaultCode`. */
  function ParseStatusCode(key: RawKey, defaultCode: int): (code: int)
    requires IsValidStatusCode(key)
    ensures IsDefaultKey(key) ==> code == defaultCode
    ensures !IsDefaultKey(key) ==> key.IntKey? && code == key.i
  {
    var parsed := IntCast(key);
    if parsed == 0 then defaultCode else parsed
  }

  /** The response stored for a valid entry: what the delegate parses at the
      entry's pointer, with its status code overwritten by the normalised one. */
  function ParsedResponse(entry: Entry, pointer: Pointer, delegate: Pointer -> MockResponse, defaultCode: int)
    : (response: MockResponse)
    requires IsValidEntry(entry)
    ensures response.statusCode == ParseStatusCode(entry.key, defaultCode)
    ensures response.content == delegate(WithPathElement(pointer, entry.key)).content
  {
    delegate(WithPathElement(pointer, entry.key)).(statusCode := ParseStatusCode(entry.key, defaultCode))
  }

  /**
   * What parsing the entries in order produces: each entry adds its validation
   * errors, and a valid entry is put under its normalised status code. Every
   * stored response carries the status code it is stored under.
   */
  function CollectResponses(entries: seq<Entry>, pointer: Pointer, delegate: Pointer -> MockResponse, defaultCode: int)
    : (c: Collection)
    ensures forall code :: code in c.responses ==> c.responses[code].statusCode == code
    ensures |c.responses| <= |entries|
    decreases |entries|
  {
    if entries == [] then Collection(map[], [])
    else
      var before := CollectResponses(entries[..|entries| - 1], pointer, delegate, defaultCode);
      var entry := entries[|entries| - 1];
      var errors := before.errors + ValidationErrors(entry, WithPathElement(pointer, entry.key));
      if IsValidEntry(entry) then
        var code := ParseStatusCode(entry.key, defaultCode);
        Collection(before.responses[code := ParsedResponse(entry, pointer, delegate, defaultCode)], errors)
      else
        Collection(before.responses, errors)
  }

  /**
   * The parser's loop: walks the raw entries of the `responses` node at
   * `pointer`, collecting errors and putting every valid entry into a new
   * response map.
   */
  method ParsePointedSchema(responseSchemas: seq<Entry>, pointer: Pointer, delegate: Pointer -> MockResponse, defaultCode: int)
    returns (responses: MockResponseMap, errors: seq<ParseError>)
    ensures fresh(responses)
    ensures responses.entries == CollectResponses(responseSchemas, pointer, delegate, defaultCode).responses
    ensures errors == CollectResponses(responseSchemas, pointer, delegate, defaultCode).errors
  {
    responses := new MockResponseMap();
    errors := [];
    var i := 0;
    while i < |responseSchemas|
      invariant 0 <= i <= |responseSchemas|
      invariant responses.entries == CollectResponses(responseSchemas[..i], pointer, delegate, defaultCode).responses
      invariant errors == CollectResponses(responseSchemas[..i], pointer, delegate, defaultCode).errors
    {
      var statusCode := responseSchemas[i].key;
      var responseSpecification := responseSchemas[i].value;
      var responsePointer := WithPathElement(pointer, statusCode);
      var isValid, reported := ValidateResponse(statusCode, responseSpecification, responsePointer);
      errors := errors + reported;
      if isValid {
        var response := delegate(responsePointer);
        var parsedStatusCode := ParseStatusCode(statusCode, defaultCode);
        response := response.(statusCode := parsedStatusCode);
        responses.Put(parsedStatusCode, response);
      }
      assert responseSchemas[..i + 1][..i] == responseSchemas[..i];
      i := i + 1;
    }
    assert responseSchemas[..i] == responseSchemas;
  }
}
