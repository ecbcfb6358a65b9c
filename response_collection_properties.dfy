/** What the response-collection parser promises about the map it builds and the errors it reports. */
module ResponseCollectionProperties {
  import opened Parameters
  import opened ResponseCollectionParser

  /** The normalised status codes of the valid entries. */
  ghost function NormalisedCodes(entries: seq<Entry>, defaultCode: int): set<int>
  {
    set entry | entry in entries && IsValidEntry(entry) :: ParseStatusCode(entry.key, defaultCode)
  }

  /** The result's key set is exactly the normalised codes of the valid entries. */
  lemma {:induction false} CollectedCodes(entries: seq<Entry>, pointer: Pointer, delegate: Pointer -> MockResponse, defaultCode: int)
    ensures CollectResponses(entries, pointer, delegate, defaultCode).responses.Keys == NormalisedCodes(entries, defaultCode)
  {
    if entries != [] {
      var prefix := entries[..|entries| - 1];
      var last := entries[|entries| - 1];
      assert entries == prefix + [last];
      CollectedCodes(prefix, pointer, delegate, defaultCode);
      if IsValidEntry(last) {
        assert NormalisedCodes(entries, defaultCode) == NormalisedCodes(prefix, defaultCode) + {ParseStatusCode(last.key, defaultCode)};
      } else {
        assert NormalisedCodes(entries, defaultCode) == NormalisedCodes(prefix, defaultCode);
      }
    }
  }

  /** A valid entry that no later valid entry shares a status code with is the one stored under its code. */
  lemma {:induction false} LastEntryWins(entries: seq<Entry>, i: nat, pointer: Pointer, delegate: Pointer -> MockResponse, defaultCode: int)
    requires i < |entries| && IsValidEntry(entries[i])
    requires forall j :: i < j < |entries| && IsValidEntry(entries[j]) ==>
               ParseStatusCode(entries[j].key, defaultCode) != ParseStatusCode(entries[i].key, defaultCode)
    ensures var responses := CollectResponses(entries, pointer, delegate, defaultCode).responses;
            ParseStatusCode(entries[i].key, defaultCode) in responses &&
            responses[ParseStatusCode(entries[i].key, defaultCode)] == ParsedResponse(entries[i], pointer, delegate, defaultCode)
  {
    var prefix := entries[..|entries| - 1];
    if i < |entries| - 1 {
      assert prefix[i] == entries[i];
      forall j | i < j < |prefix| && IsValidEntry(prefix[j])
        ensures ParseStatusCode(prefix[j].key, defaultCode) != ParseStatusCode(prefix[i].key, defaultCode)
      {
        assert prefix[j] == entries[j];
      }
      LastEntryWins(prefix, i, pointer, delegate, defaultCode);
    }
  }

  /** The errors of a concatenation are the errors of its parts, in order: no entry's
      errors depend on, or suppress, another entry's. */
  lemma {:induction false} ErrorsAppend(a: seq<Entry>, b: seq<Entry>, pointer: Pointer, delegate: Pointer -> MockResponse, defaultCode: int)
    ensures CollectResponses(a + b, pointer, delegate, defaultCode).errors
         == CollectResponses(a, pointer, delegate, defaultCode).errors + CollectResponses(b, pointer, delegate, defaultCode).errors
    decreases |b|
  {
    if b == [] {
      assert a + b == a;
    } else {
      var bPrefix := b[..|b| - 1];
      assert (a + b)[..|a + b| - 1] == a + bPrefix;
      assert (a + b)[|a + b| - 1] == b[|b| - 1];
      ErrorsAppend(a, bPrefix, pointer, delegate, defaultCode);
    }
  }

  /** One entry on its own reports exactly its validation errors, at the pointer extended by its key. */
  lemma SingleEntryErrors(entry: Entry, pointer: Pointer, delegate: Pointer -> MockResponse, defaultCode: int)
    ensures CollectResponses([entry], pointer, delegate, defaultCode).errors == ValidationErrors(entry, WithPathElement(pointer, entry.key))
  {
  }

  /** Parsing reports no error exactly when every entry is valid. */
  lemma {:induction false} NoErrorsIffAllValid(entries: seq<Entry>, pointer: Pointer, delegate: Pointer -> MockResponse, defaultCode: int)
    ensures CollectResponses(entries, pointer, delegate, defaultCode).errors == [] <==> forall entry :: entry in entries ==> IsValidEntry(entry)
  {
    if entries != [] {
      var prefix := entries[..|entries| - 1];
      assert entries == prefix + [entries[|entries| - 1]];
      NoErrorsIffAllValid(prefix, pointer, delegate, defaultCode);
    }
  }

  /** An invalid entry anywhere in the input contributes nothing to the map, and
      the entries after it are still parsed. */
  lemma {:induction false} InvalidEntryIgnored(a: seq<Entry>, invalid: Entry, b: seq<Entry>, pointer: Pointer, delegate: Pointer -> MockResponse, defaultCode: int)
    requires !IsValidEntry(invalid)
    ensures CollectResponses(a + [invalid] + b, pointer, delegate, defaultCode).responses
         == CollectResponses(a + b, pointer, delegate, defaultCode).responses
    decreases |b|
  {
    if b == [] {
      assert a + [invalid] + b == a + [invalid];
      assert (a + [invalid])[..|a|] == a;
      assert a + b == a;
    } else {
      var bPrefix := b[..|b| - 1];
      var last := b[|b| - 1];
      assert (a + [invalid] + b)[..|a + [invalid] + b| - 1] == a + [invalid] + bPrefix;
      assert (a + [invalid] + b)[|a + [invalid] + b| - 1] == last;
      assert (a + b)[..|a + b| - 1] == a + bPrefix;
      assert (a + b)[|a + b| - 1] == last;
      InvalidEntryIgnored(a, invalid, bPrefix, pointer, delegate, defaultCode);
    }
  }

  /** An empty `responses` node yields an empty map and no errors. */
  lemma EmptyResponses(pointer: Pointer, delegate: Pointer -> MockResponse, defaultCode: int)
    ensures CollectResponses([], pointer, delegate, defaultCode) == Collection(map[], [])
  {
  }

  /** Two distinct valid keys land in the same slot exactly when each of them is
      0, "default", or the integer `defaultCode` itself. */
  lemma SameSlot(k1: RawKey, k2: RawKey, defaultCode: int)
    requires IsValidStatusCode(k1) && IsValidStatusCode(k2) && k1 != k2
    ensures ParseStatusCode(k1, defaultCode) == ParseStatusCode(k2, defaultCode)
        <==> (IsDefaultKey(k1) || k1 == IntKey(defaultCode)) && (IsDefaultKey(k2) || k2 == IntKey(defaultCode))
  {
  }

  /** "default" followed by 0: one slot, holding the response parsed for the later key. */
  lemma DefaultAndZeroCollapse(pointer: Pointer, delegate: Pointer -> MockResponse, defaultCode: int)
    ensures var entries := [Entry(StrKey(DefaultKey), ArrayValue), Entry(IntKey(0), ArrayValue)];
            var c := CollectResponses(entries, pointer, delegate, defaultCode);
            c.responses == map[defaultCode := ParsedResponse(entries[1], pointer, delegate, defaultCode)]
            && c.errors == []
  {
    var entries := [Entry(StrKey(DefaultKey), ArrayValue), Entry(IntKey(0), ArrayValue)];
    assert entries[..1] == [entries[0]];
    assert entries[..1][..0] == [];
    NoErrorsIffAllValid(entries, pointer, delegate, defaultCode);
  }
}
