/// The anchor record the engine returns (Parsing/ATagResult.cs, with the
/// fields it inherits from Parsing/BaseTagResult.cs). A null string property
/// is None.
module ATagResult {
  import opened Wrappers
  import opened Text

  datatype ATagResult = ATagResult(
    startIndex: int,
    endIndex: int,
    html: Option<string>,
    href: Option<string>,
    hrefLang: Option<string>,
    target: Option<string>,
    download: Option<string>,
    rel: Option<string>,
    mimeType: Option<string>,
    isExternal: bool)
  {
    /// An anchor is valid when its href holds a non-white-space character.
    predicate IsValid()
      ensures IsValid() <==> href.Some? && exists k :: 0 <= k < |href.value| && !IsWhiteSpace(href.value[k])
    {
      !IsNullOrWhiteSpace(href)
    }
  }

  /// A freshly created anchor: every property at its default.
  const Blank: ATagResult := ATagResult(0, 0, None, None, None, None, None, None, None, false)

  /// Validity is a property of the href alone: the other fields never
  /// change it.
  lemma IsValidDependsOnlyOnHref(a: ATagResult, b: ATagResult)
    requires a.href == b.href
    ensures a.IsValid() == b.IsValid()
  {
  }
}
