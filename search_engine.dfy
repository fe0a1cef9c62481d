/// The anchor search of Parsing/SearchEngine.cs: FindLinks and
/// InnerFindATags. Both spellings of the anchor delimiters are searched, the
/// results united by start index, each tag projected onto an anchor record,
/// and every fault of the tag search turned into an error message.
module SearchEngine {
  import opened Wrappers
  import opened Text
  import opened Guard
  import opened HtmlTerm
  import opened TurboSearch
  import opened StopSpaces
  import opened EngineFault
  import opened GenericTagResult
  import opened ATagResult
  import opened SearchEngineResult
  import opened TagPairing
  import Enumerable

  // ------------------------------------------------------------- projection

  /// The value of an attribute, or None when the tag does not have it.
  function Lookup(attributes: map<string, string>, name: string): Option<string> {
    if name in attributes then Some(attributes[name]) else None
  }

  /// One case of the switch over an attribute: a known name sets its
  /// property (href also decides IsExternal), any other name is ignored.
  function ApplyAttribute(a: ATagResult, name: string, value: string): ATagResult {
    if name == HrefAttribute then a.(href := Some(value), isExternal := !StartsWith(value, "/"))
    else if name == HrefLangAttribute then a.(hrefLang := Some(value))
    else if name == TargetAttribute then a.(target := Some(value))
    else if name == DownloadAttribute then a.(download := Some(value))
    else if name == RelAttribute then a.(rel := Some(value))
    else if name == TypeAttribute then a.(mimeType := Some(value))
    else a
  }

  /// The value of an attribute once the attributes named in `seen` have
  /// gone through the switch.
  function Seen(tag: TagSpan, seen: set<string>, name: string): Option<string> {
    if name in seen then Lookup(tag.attributes, name) else None
  }

  /// The anchor once the attributes named in `seen` have gone through the
  /// switch, whatever their order.
  function ProjectedFrom(tag: TagSpan, seen: set<string>): ATagResult {
    var href := Seen(tag, seen, HrefAttribute);
    ATagResult(0, 0, tag.html,
      href, Seen(tag, seen, HrefLangAttribute), Seen(tag, seen, TargetAttribute),
      Seen(tag, seen, DownloadAttribute), Seen(tag, seen, RelAttribute), Seen(tag, seen, TypeAttribute),
      href.Some? && !StartsWith(href.value, "/"))
  }

  /// The anchor a tag becomes.
  function Project(tag: TagSpan): ATagResult {
    ProjectedFrom(tag, tag.attributes.Keys)
  }

  /// What the anchor says about its tag: the tag's text, each known
  /// attribute's value or None, external exactly when an href is there and
  /// does not start with "/", and no span (the projection does not copy it).
  lemma ProjectMeaning(tag: TagSpan)
    ensures var a := Project(tag);
      a.html == tag.html && a.startIndex == 0 && a.endIndex == 0
      && a.href == Lookup(tag.attributes, HrefAttribute)
      && a.hrefLang == Lookup(tag.attributes, HrefLangAttribute)
      && a.target == Lookup(tag.attributes, TargetAttribute)
      && a.download == Lookup(tag.attributes, DownloadAttribute)
      && a.rel == Lookup(tag.attributes, RelAttribute)
      && a.mimeType == Lookup(tag.attributes, TypeAttribute)
      && (a.isExternal <==> a.href.Some? && !StartsWith(a.href.value, "/"))
  {
  }

  /// Attributes the switch does not name (rev, name, class, ...) never
  /// change the anchor.
  lemma ProjectIgnoresOtherAttributes(tag: TagSpan, name: string, value: string)
    requires name !in [HrefAttribute, HrefLangAttribute, TargetAttribute, DownloadAttribute, RelAttribute, TypeAttribute]
    ensures Project(tag.(attributes := tag.attributes[name := value])) == Project(tag)
  {
    ProjectMeaning(tag);
    ProjectMeaning(tag.(attributes := tag.attributes[name := value]));
  }

  /// The switch over one more attribute extends what has been seen.
  lemma ApplyAttributeStep(tag: TagSpan, seen: set<string>, remaining: set<string>, name: string)
    requires name in remaining && remaining <= tag.attributes.Keys && seen == tag.attributes.Keys - remaining
    ensures ApplyAttribute(ProjectedFrom(tag, seen), name, tag.attributes[name])
      == ProjectedFrom(tag, tag.attributes.Keys - (remaining - {name}))
  {
    assert tag.attributes.Keys - (remaining - {name}) == seen + {name};
  }

  /// One anchor: a fresh record with the tag's text, then the switch over
  /// the tag's attributes in the dictionary's enumeration order, which the
  /// result does not depend on.
  method ProjectTag(tag: TagSpan) returns (a: ATagResult)
    ensures a == Project(tag)
  {
    a := Blank.(html := tag.html);
    var remaining := tag.attributes.Keys;
    while remaining != {}
      invariant remaining <= tag.attributes.Keys
      invariant a == ProjectedFrom(tag, tag.attributes.Keys - remaining)
      decreases |remaining|
    {
      var name :| name in remaining;
      ApplyAttributeStep(tag, tag.attributes.Keys - remaining, remaining, name);
      a := ApplyAttribute(a, name, tag.attributes[name]);
      remaining := remaining - {name};
    }
    assert tag.attributes.Keys - remaining == tag.attributes.Keys;
  }

  /// Every tag projected, in order.
  function ProjectAll(tags: seq<TagSpan>): (anchors: seq<ATagResult>)
    ensures |anchors| == |tags|
    ensures forall k :: 0 <= k < |tags| ==> anchors[k] == Project(tags[k])
  {
    seq(|tags|, k requires 0 <= k < |tags| => Project(tags[k]))
  }

  /// The projection loop over the united tags.
  method ProjectTags(tags: seq<TagSpan>) returns (anchors: seq<ATagResult>)
    ensures anchors == ProjectAll(tags)
  {
    anchors := [];
    var i := 0;
    while i < |tags|
      invariant 0 <= i <= |tags|
      invariant |anchors| == i && forall k :: 0 <= k < i ==> anchors[k] == Project(tags[k])
    {
      var tmp := ProjectTag(tags[i]);
      anchors := anchors + [tmp];
      i := i + 1;
    }
  }

  // ----------------------------------------------------------------- search

  /// What the anchor search returns: anchors, or none, and an error message.
  datatype AnchorSearch = AnchorSearch(data: Option<seq<ATagResult>>, errorMessage: Option<string>)

  /// SearchEngineResult.Union on the contents of two results.
  function Merge(mine: TagSearch, theirs: TagSearch): TagSearch {
    if theirs.data.None? then mine
    else TagSearch(Some(Enumerable.Union(OrEmpty(mine.data), theirs.data.value, StartOf)),
                   MergedError(mine.errorMessage, theirs.errorMessage))
  }

  /// The message a caught exception leaves in the result.
  function Caught(f: Fault): AnchorSearch {
    AnchorSearch(None, Some(FaultMessage(f)))
  }

  /// The result built from the united tags: the anchors with the tags'
  /// message, or, without tags, the message alone; an unusable message
  /// makes the constructor throw, and the catch keeps the guard's text.
  function Projected(raw: TagSearch): AnchorSearch {
    if raw.data.Some? then AnchorSearch(Some(ProjectAll(raw.data.value)), raw.errorMessage)
    else if !IsNullOrWhiteSpace(raw.errorMessage) then AnchorSearch(None, raw.errorMessage)
    else AnchorSearch(None, Some(ErrorText(ArgumentNotEmpty(raw.errorMessage, Some("errorMessage")).error)))
  }

  /// InnerFindATags on a usable page, as a function of the page and the
  /// exclusion ranges.
  function FindATags(html: string, stopSpaces: seq<Span>): AnchorSearch {
    match FindTag(html, ATagBegin, ATagEnd, stopSpaces, false)
    case Err(f) => Caught(f)
    case Ok(lower) =>
      match FindTag(html, ATagBeginUpper, ATagEndUpper, stopSpaces, false)
      case Err(f) => Caught(f)
      case Ok(upper) => Projected(Merge(lower, upper))
  }

  /// A tag that runs from an occurrence of an anchor's opening delimiter to
  /// an occurrence of the closing delimiter of the same spelling, both
  /// outside every exclusion range.
  predicate AnchorSpan(html: string, stopSpaces: seq<Span>, t: TagSpan) {
    ((MatchesAt(ATagBegin, html, t.startIndex) && MatchesAt(ATagEnd, html, t.endIndex))
     || (MatchesAt(ATagBeginUpper, html, t.startIndex) && MatchesAt(ATagEndUpper, html, t.endIndex)))
    && Outside(t.startIndex, stopSpaces) && Outside(t.endIndex, stopSpaces)
  }

  /// "<a" and "<A" never start at the same position.
  lemma SpellingsApart(html: string, p: int, q: int)
    requires MatchesAt(ATagBegin, html, p) && MatchesAt(ATagBeginUpper, html, q)
    ensures p != q
  {
    assert Agrees(ATagBegin, html, p, 1) && Agrees(ATagBeginUpper, html, q, 1);
  }

  /// What the anchor search finds: no anchors exactly when one of the two
  /// searches raised, and then a usable message; otherwise the lower-case
  /// tags followed by the upper-case ones, projected, with no message. No
  /// two of those tags start at the same position ("<a" and "<A" never
  /// share one), so the union drops none, and each runs between real
  /// delimiters outside the exclusion ranges. The message-check fallback
  /// of the result constructor is never reached.
  lemma FindATagsMeaning(html: string, stopSpaces: seq<Span>)
    ensures var lower := FindTag(html, ATagBegin, ATagEnd, stopSpaces, false);
      var upper := FindTag(html, ATagBeginUpper, ATagEndUpper, stopSpaces, false);
      var r := FindATags(html, stopSpaces);
      (r.data.None? <==> lower.Err? || upper.Err?)
      && (lower.Err? ==> r.errorMessage == Some(FaultMessage(lower.error)))
      && (lower.Ok? && upper.Err? ==> r.errorMessage == Some(FaultMessage(upper.error)))
      && (r.data.None? ==> r.errorMessage.Some? && !IsBlank(r.errorMessage.value))
      && (lower.Ok? && upper.Ok? ==>
            lower.value.data.Some? && upper.value.data.Some?
            && var tags := lower.value.data.value + upper.value.data.value;
               r == AnchorSearch(Some(ProjectAll(tags)), None)
               && Enumerable.DistinctKeys(tags, StartOf)
               && forall t :: t in tags ==> AnchorSpan(html, stopSpaces, t))
  {
    var lower := FindTag(html, ATagBegin, ATagEnd, stopSpaces, false);
    var upper := FindTag(html, ATagBeginUpper, ATagEndUpper, stopSpaces, false);
    FoundTagsSpanDelimiters(html, ATagBegin, ATagEnd, stopSpaces, false);
    FoundTagsSpanDelimiters(html, ATagBeginUpper, ATagEndUpper, stopSpaces, false);
    if lower.Err? {
      RaisableMessageUsable(lower.error);
    } else if upper.Err? {
      RaisableMessageUsable(upper.error);
    } else {
      var lowerTags := lower.value.data.value;
      var upperTags := upper.value.data.value;
      FoundStartsDistinct(html, ATagBegin, ATagEnd, stopSpaces, false);
      FoundStartsDistinct(html, ATagBeginUpper, ATagEndUpper, stopSpaces, false);
      forall i, j | 0 <= i < |lowerTags| && 0 <= j < |upperTags|
        ensures StartOf(lowerTags[i]) != StartOf(upperTags[j])
      {
        assert lowerTags[i] in lowerTags && upperTags[j] in upperTags;
        SpellingsApart(html, lowerTags[i].startIndex, upperTags[j].startIndex);
      }
      Enumerable.UnionOfDisjoint(lowerTags, upperTags, StartOf);
      var tags := lowerTags + upperTags;
      forall t | t in tags ensures AnchorSpan(html, stopSpaces, t) {
        assert t in lowerTags || t in upperTags;
      }
      assert Enumerable.DistinctKeys(tags, StartOf) by {
        Enumerable.DistinctFromIdentity(tags, StartOf, {});
      }
    }
  }

  /// The results built from the united tags, as the try block builds them,
  /// with the catch for a rejected message.
  method BuildResult(raw: SearchEngineResult<TagSpan>) returns (result: SearchEngineResult<ATagResult>)
    ensures fresh(result)
    ensures AnchorSearch(result.data, result.errorMessage) == Projected(TagSearch(raw.data, raw.errorMessage))
  {
    if raw.data.Some? {
      var tags := ProjectTags(raw.data.value);
      result := new SearchEngineResult<ATagResult>.FromData(Some(tags));
      result.errorMessage := raw.errorMessage;
    } else {
      var made := SearchEngineResult<ATagResult>.WithError(raw.errorMessage);
      if made.Ok? {
        result := made.value;
      } else {
        ArgumentNotEmptyText(raw.errorMessage, Some("errorMessage"));
        var caught := SearchEngineResult<ATagResult>.WithError(Some(ErrorText(made.error)));
        result := caught.value;
      }
    }
  }

  /// The catch block: a result holding the exception's message.
  method CatchFault(f: Fault) returns (result: SearchEngineResult<ATagResult>)
    requires Raisable(f)
    ensures fresh(result)
    ensures AnchorSearch(result.data, result.errorMessage) == Caught(f)
  {
    RaisableMessageUsable(f);
    var caught := SearchEngineResult<ATagResult>.WithError(Some(FaultMessage(f)));
    result := caught.value;
  }

  /// InnerFindATags: the page is checked, then the lower-case anchors are
  /// searched and united with the upper-case ones, and the tags projected;
  /// a fault of either search is caught and becomes the error message.
  method InnerFindATags(html: Option<string>, stopSpaces: seq<Span>)
    returns (r: Result<SearchEngineResult<ATagResult>, GuardError>)
    ensures r.Err? <==> IsNullOrWhiteSpace(html)
    ensures r.Err? ==> Fail(r.error) == ArgumentNotEmpty(html, Some("html"))
    ensures r.Ok? ==> fresh(r.value)
    ensures r.Ok? ==> AnchorSearch(r.value.data, r.value.errorMessage) == FindATags(html.value, stopSpaces)
  {
    var check := ArgumentNotEmpty(html, Some("html"));
    if check.Fail? {
      return Err(check.error);
    }
    var page := html.value;
    var raw := InnerFindTag(page, ATagBegin, ATagEnd, stopSpaces, false);
    if raw.Err? {
      FoundTagsSpanDelimiters(page, ATagBegin, ATagEnd, stopSpaces, false);
      var caught := CatchFault(raw.error);
      return Ok(caught);
    }
    var upper := InnerFindTag(page, ATagBeginUpper, ATagEndUpper, stopSpaces, false);
    if upper.Err? {
      FoundTagsSpanDelimiters(page, ATagBeginUpper, ATagEndUpper, stopSpaces, false);
      var caught := CatchFault(upper.error);
      return Ok(caught);
    }
    var united := raw.value;
    united.Union(upper.value, StartOf);
    var result := BuildResult(united);
    return Ok(result);
  }

  /// FindLinks: the anchors of the page, or None when the search failed.
  function Links(html: string): Option<seq<ATagResult>> {
    FindATags(html, CommonStopSpaces(html)).data
  }

  /// The links of a page are there exactly when neither spelling's search
  /// raised, and then they are the projections of tags with distinct starts
  /// that run between real anchor delimiters outside every comment and
  /// noindex range.
  lemma LinksMeaning(html: string)
    ensures var lower := FindTag(html, ATagBegin, ATagEnd, CommonStopSpaces(html), false);
      var upper := FindTag(html, ATagBeginUpper, ATagEndUpper, CommonStopSpaces(html), false);
      Links(html).Some? <==> lower.Ok? && upper.Ok?
    ensures Links(html).Some? ==>
      exists tags :: (Links(html) == Some(ProjectAll(tags))
                      && Enumerable.DistinctKeys(tags, StartOf)
                      && forall t :: t in tags ==> AnchorSpan(html, CommonStopSpaces(html), t))
  {
    var stopSpaces := CommonStopSpaces(html);
    FindATagsMeaning(html, stopSpaces);
    if Links(html).Some? {
      var tags := FindTag(html, ATagBegin, ATagEnd, stopSpaces, false).value.data.value
        + FindTag(html, ATagBeginUpper, ATagEndUpper, stopSpaces, false).value.data.value;
      assert Links(html) == Some(ProjectAll(tags));
    }
  }

  /// FindLinks: the page is checked, the comment and noindex ranges are
  /// found, and the anchor search's data is returned.
  method FindLinks(html: Option<string>) returns (r: Result<Option<seq<ATagResult>>, GuardError>)
    ensures r.Err? <==> IsNullOrWhiteSpace(html)
    ensures r.Err? ==> Fail(r.error) == ArgumentNotEmpty(html, Some("html"))
    ensures r.Ok? ==> r.value == Links(html.value)
  {
    var check := ArgumentNotEmpty(html, Some("html"));
    if check.Fail? {
      return Err(check.error);
    }
    var stopSpaces := InnerFindCommonStopSpaces(html.value);
    var found := InnerFindATags(html, stopSpaces);
    return Ok(found.value.data);
  }
}
