/// StartIndexComparer<T> (Parsing/StartIndexComparer.cs): equality of tag
/// results by their StartIndex alone. A tag result type is given by the
/// function that reads its start index; a null result is None.
module StartIndexComparer {
  import opened Wrappers

  /// StartIndexComparer.Equals.
  function Equals<T(==)>(x: Option<T>, y: Option<T>, startIndex: T -> int): (equal: bool)
    ensures x == y ==> equal
    ensures x.None? != y.None? ==> !equal
    ensures x.Some? && y.Some? ==> (equal <==> startIndex(x.value) == startIndex(y.value))
  {
    if x == y then true
    else if x.None? && y.None? then true
    else if x.None? then false
    else if y.None? then false
    else startIndex(x.value) == startIndex(y.value)
  }

  /// StartIndexComparer.GetHashCode; Int32.GetHashCode is the value itself.
  function GetHashCode<T>(obj: Option<T>, startIndex: T -> int): (h: int)
    ensures obj.None? ==> h == 0
    ensures obj.Some? ==> h == startIndex(obj.value)
  {
    if obj.None? then 0 else startIndex(obj.value)
  }

  /// Results the comparer calls equal hash equally.
  lemma EqualResultsHashEqually<T>(x: Option<T>, y: Option<T>, startIndex: T -> int)
    requires Equals(x, y, startIndex)
    ensures GetHashCode(x, startIndex) == GetHashCode(y, startIndex)
  {
  }

  /// The comparer is an equivalence relation.
  lemma EqualsIsEquivalence<T>(x: Option<T>, y: Option<T>, z: Option<T>, startIndex: T -> int)
    ensures Equals(x, x, startIndex)
    ensures Equals(x, y, startIndex) == Equals(y, x, startIndex)
    ensures Equals(x, y, startIndex) && Equals(y, z, startIndex) ==> Equals(x, z, startIndex)
  {
  }
}
