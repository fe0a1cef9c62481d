/// The raw tag the pairing step builds (Parsing/GenericTagResult.cs, with the
/// fields it inherits from Parsing/BaseTagResult.cs): a mutable object whose
/// attribute dictionary grows in place.
module GenericTagResult {
  import opened Wrappers
  import opened Guard

  /// The contents of a finished tag. Nothing changes a tag once the pairing
  /// step has returned it, so results are passed on as these values.
  datatype TagSpan = TagSpan(
    startIndex: int,
    endIndex: int,
    html: Option<string>,
    rawAttributesHtml: Option<string>,
    attributes: map<string, string>)

  class GenericTagResult {
    var startIndex: int
    var endIndex: int
    var html: Option<string>
    var rawAttributesHtml: Option<string>
    var attributes: map<string, string>

    /// A fresh tag: no span, no text and an empty attribute dictionary.
    constructor ()
      ensures startIndex == 0 && endIndex == 0
      ensures html == None && rawAttributesHtml == None
      ensures attributes == map[]
    {
      startIndex := 0;
      endIndex := 0;
      html := None;
      rawAttributesHtml := None;
      attributes := map[];
    }

    /// Every generic tag is valid.
    predicate IsValid()
      ensures IsValid()
    {
      true
    }

    /// The current contents of the tag.
    function Snapshot(): TagSpan
      reads this
    {
      TagSpan(startIndex, endIndex, html, rawAttributesHtml, attributes)
    }

    /// AddAttributePair: a usable name is mapped to `value`, replacing what it
    /// was mapped to; a null or blank name is rejected and nothing changes.
    method AddAttributePair(name: Option<string>, value: string) returns (r: Outcome<GuardError>)
      modifies this
      ensures r == ArgumentNotEmpty(name, Some("name"))
      ensures r.Pass? ==> attributes == old(attributes)[name.value := value]
      ensures r.Fail? ==> attributes == old(attributes)
      ensures startIndex == old(startIndex) && endIndex == old(endIndex)
      ensures html == old(html) && rawAttributesHtml == old(rawAttributesHtml)
    {
      r := ArgumentNotEmpty(name, Some("name"));
      if r.Pass? {
        attributes := attributes[name.value := value];
      }
    }
  }
}
