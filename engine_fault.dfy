/// The exceptions the tag search can raise on a page (Parsing/SearchEngine.cs)
/// and that the anchor search catches, turning them into an error message.
module EngineFault {
  import opened Text
  import opened Guard

  datatype Fault =
    /// Stack.Pop on an empty stack: a closing delimiter with no opener left.
    | EmptyStack
    /// String.Substring with a start or length outside the string.
    | SubstringOutOfRange(cause: SubstringFault)
    /// AddAttributePair given a blank attribute name.
    | AttributeNameRejected(error: GuardError)

  /// Exception.Message of the fault: the runtime's text for the first two
  /// kinds, the guard's text for the third.
  function FaultMessage(f: Fault): string {
    match f
    case EmptyStack => "Stack empty."
    case SubstringOutOfRange(StartIndexOutOfRange) => "startIndex" + " cannot be larger than length of string."
    case SubstringOutOfRange(NegativeLength) => "Length cannot be less than zero."
    case SubstringOutOfRange(LengthOutOfRange) => "Index" + " and length must refer to a location within the string."
    case AttributeNameRejected(error) => ErrorText(error)
  }

  /// The faults the engine can raise: a rejected attribute name always
  /// comes from the check of AddAttributePair, which names "name".
  predicate Raisable(f: Fault) {
    f.AttributeNameRejected? ==> f.error == ArgumentException("name")
  }

  /// The message of a raisable fault is never blank, so the error result the
  /// anchor search builds from it is always accepted.
  lemma RaisableMessageUsable(f: Fault)
    requires Raisable(f)
    ensures !IsBlank(FaultMessage(f))
  {
    match f
    case AttributeNameRejected(error) =>
      assert FaultMessage(f) == "name";
      assert !IsWhiteSpace(FaultMessage(f)[0]);
    case EmptyStack =>
      assert !IsWhiteSpace(FaultMessage(f)[0]);
    case SubstringOutOfRange(StartIndexOutOfRange) =>
      assert !IsWhiteSpace(FaultMessage(f)[0]);
    case SubstringOutOfRange(NegativeLength) =>
      assert !IsWhiteSpace(FaultMessage(f)[0]);
    case SubstringOutOfRange(LengthOutOfRange) =>
      assert !IsWhiteSpace(FaultMessage(f)[0]);
  }
}
