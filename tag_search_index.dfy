/// The position markers the matcher produces (Parsing/TagSearchIndex.cs) and
/// their position-only equality comparer.
module TagSearchIndex {
  import opened Wrappers

  /// Where a delimiter starts in the text, and whether it opens or closes a
  /// tag. A marker is never changed after the matcher creates it.
  datatype Marker = Marker(isOpeningTag: bool, value: int) {

    /// IsClosingTag: exactly the markers that do not open.
    function IsClosingTag(): (closing: bool)
      ensures closing <==> !isOpeningTag
    {
      !isOpeningTag
    }
  }

  /// DefaultComparer.Equals, a null marker being None. Two markers that are
  /// the same object are equal values, so the reference test of the source is
  /// the first line.
  function Equals(x: Option<Marker>, y: Option<Marker>): (equal: bool)
    ensures x.None? && y.None? ==> equal
    ensures x.None? != y.None? ==> !equal
    ensures x.Some? && y.Some? ==> (equal <==> x.value.value == y.value.value)
  {
    if x == y then true
    else if x.None? && y.None? then true
    else if x.None? then false
    else if y.None? then false
    else x.value.value == y.value.value
  }

  /// DefaultComparer.GetHashCode; Int32.GetHashCode is the value itself.
  function GetHashCode(obj: Option<Marker>): (h: int)
    ensures obj.None? ==> h == 0
    ensures obj.Some? ==> h == obj.value.value
  {
    if obj.None? then 0 else obj.value.value
  }

  /// Equal markers hash equally, as a .NET equality comparer must.
  lemma EqualMarkersHashEqually(x: Option<Marker>, y: Option<Marker>)
    requires Equals(x, y)
    ensures GetHashCode(x) == GetHashCode(y)
  {
  }

  /// The comparer is an equivalence relation.
  lemma EqualsIsEquivalence(x: Option<Marker>, y: Option<Marker>, z: Option<Marker>)
    ensures Equals(x, x)
    ensures Equals(x, y) == Equals(y, x)
    ensures Equals(x, y) && Equals(y, z) ==> Equals(x, z)
  {
  }

  /// The role of a marker plays no part in equality: an opener and a closer
  /// at the same position are equal.
  lemma RoleIgnored(v: int)
    ensures Equals(Some(Marker(true, v)), Some(Marker(false, v)))
  {
  }
}
