/// The outcome of a tag search (Parsing/SearchEngineResult.cs): the tags
/// found, or none, and an error message that decides success.
module SearchEngineResult {
  import opened Wrappers
  import opened Text
  import opened Guard
  import Enumerable

  /// The message after a union: a usable message of the other result is
  /// appended after ". ", or replaces an unusable own message.
  function MergedError(mine: Option<string>, theirs: Option<string>): Option<string> {
    if IsNullOrWhiteSpace(theirs) then mine
    else if !IsNullOrWhiteSpace(mine) then Some(mine.value + ". " + theirs.value)
    else theirs
  }

  /// A merged result succeeds exactly when both results succeeded, and a
  /// usable other message always survives the merge.
  lemma MergedErrorSuccess(mine: Option<string>, theirs: Option<string>)
    ensures IsNullOrWhiteSpace(MergedError(mine, theirs)) <==> IsNullOrWhiteSpace(mine) && IsNullOrWhiteSpace(theirs)
    ensures !IsNullOrWhiteSpace(theirs) ==> EndsWith(MergedError(mine, theirs).value, theirs.value)
  {
    var merged := MergedError(mine, theirs);
    if !IsNullOrWhiteSpace(theirs) {
      var k :| 0 <= k < |theirs.value| && !IsWhiteSpace(theirs.value[k]);
      if !IsNullOrWhiteSpace(mine) {
        var prefix := mine.value + ". ";
        assert merged.value == prefix + theirs.value;
        assert merged.value[|prefix| + k] == theirs.value[k];
        assert merged.value[|merged.value| - |theirs.value|..] == theirs.value;
      }
    }
  }

  class SearchEngineResult<T> {
    var data: Option<seq<T>>
    var errorMessage: Option<string>

    /// Success: the error message is null, empty or white space.
    function Success(): (ok: bool)
      reads this
      ensures ok <==> errorMessage.None? || forall k :: 0 <= k < |errorMessage.value| ==> IsWhiteSpace(errorMessage.value[k])
    {
      IsNullOrWhiteSpace(errorMessage)
    }

    /// The parameterless constructor: no data, no error.
    constructor ()
      ensures data == None && errorMessage == None
    {
      data := None;
      errorMessage := None;
    }

    /// The array constructor: the given data, no error.
    constructor FromData(result: Option<seq<T>>)
      ensures data == result && errorMessage == None
      ensures Success()
    {
      data := result;
      errorMessage := None;
    }

    /// The error constructor: the message must be usable; the result then
    /// has no data and fails.
    static method WithError(errorMessage: Option<string>) returns (r: Result<SearchEngineResult<T>, GuardError>)
      ensures r.Ok? <==> !IsNullOrWhiteSpace(errorMessage)
      ensures r.Err? ==> Fail(r.error) == ArgumentNotEmpty(errorMessage, Some("errorMessage"))
      ensures r.Ok? ==> fresh(r.value) && r.value.data == None && r.value.errorMessage == errorMessage
      ensures r.Ok? ==> !r.value.Success()
    {
      var check := ArgumentNotEmpty(errorMessage, Some("errorMessage"));
      if check.Fail? {
        return Err(check.error);
      }
      var result := new SearchEngineResult();
      result.errorMessage := errorMessage;
      return Ok(result);
    }

    /// Union: when the other result has data, the data becomes the own data
    /// (or nothing) followed by the other's, one element per start index,
    /// first occurrence first; its usable message is merged in. A null other
    /// result, or one without data, changes nothing, its message included.
    method Union(anotherResult: SearchEngineResult?<T>, startIndex: T -> int)
      modifies this
      ensures anotherResult == null || old(anotherResult.data).None? ==>
        data == old(data) && errorMessage == old(errorMessage)
      ensures anotherResult != null && old(anotherResult.data).Some? ==>
        data == Some(Enumerable.Union(OrEmpty(old(data)), old(anotherResult.data).value, startIndex))
        && errorMessage == MergedError(old(errorMessage), old(anotherResult.errorMessage))
      ensures anotherResult != null && old(anotherResult.data).Some? ==>
        Enumerable.KeysOf(data.value, startIndex)
        == Enumerable.KeysOf(OrEmpty(old(data)), startIndex) + Enumerable.KeysOf(old(anotherResult.data).value, startIndex)
      ensures anotherResult != null && old(anotherResult.data).Some? ==>
        (Success() <==> old(Success()) && old(anotherResult.Success()))
    {
      if anotherResult == null || anotherResult.data.None? {
        return;
      }
      var theirs := anotherResult.data.value;
      var theirError := anotherResult.errorMessage;
      Enumerable.UnionKeepsKeys(OrEmpty(data), theirs, startIndex);
      MergedErrorSuccess(errorMessage, theirError);
      data := Some(Enumerable.Union(OrEmpty(data), theirs, startIndex));
      errorMessage := MergedError(errorMessage, theirError);
    }
  }

  /// `data ?? new T[0]`.
  function OrEmpty<T>(data: Option<seq<T>>): seq<T> {
    if data.Some? then data.value else []
  }
}
