/// The two pages of Parser/TestParser.Tests/SearchEngineTest.cs: the tags
/// their anchor delimiters close into, and the anchors those become.
module EngineExamples {
  import opened Wrappers
  import opened Text
  import opened HtmlTerm
  import opened TagSearchIndex
  import opened Attributes
  import opened GenericTagResult
  import opened ATagResult
  import opened TagPairing
  import opened SearchEngine
  import opened TurboSearch

  // ------------------------------------------------------ reading attributes

  /// The text between a pair of quotes, with the quotes trimmed.
  lemma Unquoted(value: string)
    requires '"' !in value && |value| > 0
    ensures Trim("\"" + value + "\"", '"') == value
  {
    var q := "\"" + value + "\"";
    assert TrimStart(q, '"') == value + "\"" by {
      assert q[0] == '"' && q[1..] == value + "\"";
      assert (value + "\"")[0] != '"';
    }
    assert TrimEnd(value + "\"", '"') == value by {
      assert (value + "\"")[..|value|] == value;
      assert value[|value| - 1] in value;
    }
  }

  /// The first '=' of a name="value" token ends the name; the token holds
  /// no space and no '>'.
  lemma PairTokenShape(raw: string, name: string, value: string)
    requires raw == name + "=\"" + value + "\""
    requires '=' !in name && ' ' !in name && '>' !in name && ' ' !in value && '>' !in value
    ensures IndexOf(raw, '=') == |name| && raw[..|name|] == name && raw[|name| + 1..] == "\"" + value + "\""
    ensures ' ' !in raw && '>' !in raw && '=' in raw
  {
    assert raw[|name|] == '=';
    assert forall k :: 0 <= k < |name| ==> raw[k] == name[k];
    assert raw[..|name|] == name;
  }

  /// A name="value" token adds the unquoted value under that name.
  lemma PairToken(raw: string, name: string, value: string, attributes: map<string, string>)
    requires raw == name + "=\"" + value + "\""
    requires |name| > 0 && !IsWhiteSpace(name[0]) && '=' !in name && ' ' !in name && '>' !in name
    requires |value| > 0 && '"' !in value && ' ' !in value && '>' !in value
    ensures ' ' !in raw && '>' !in raw && '=' in raw
    ensures AddToken(attributes, raw) == Ok(attributes[name := value])
  {
    PairTokenShape(raw, name, value);
    Unquoted(value);
  }

  /// The attribute text ends at the first '>'.
  lemma TagEndAfter(inner: string, raw: string, text: string)
    requires inner == raw + ">" + text && '>' !in raw && |raw| > 0
    ensures RawAttributes(inner) == raw
    ensures CutAfterTagEnd(inner, |inner|) == Ok(if |text| >= 2 then text else "")
  {
    assert inner[|raw|] == '>';
    assert forall k :: 0 <= k < |raw| ==> inner[k] == raw[k];
    assert inner[..|raw|] == raw;
    CutKeepsTextAfterFirstTagEnd(inner);
    assert inner[|raw| + 1..] == text;
  }

  // ------------------------------------------------------- sibling anchors

  const SiblingsHead: string := "<html><head><title>First</title></head><body><a "
  const FirstText: string := "href=\"#first\">First"
  const SiblingsMiddle: string := "</a><a "
  const SecondText: string := "href=\"#second\">Second"
  const SiblingsTail: string := "</a></body></html>"

  /// The page of the first test: two sibling anchors, "<a" at 45 and 71,
  /// "</a>" at 67 and 95.
  const SiblingsPage: string := SiblingsHead + FirstText + SiblingsMiddle + SecondText + SiblingsTail

  /// An anchor whose only attribute is href="value", followed by its text.
  lemma HrefOnly(inner: string, raw: string, value: string, text: string)
    requires raw == "href=\"" + value + "\"" && inner == raw + ">" + text
    requires |value| > 0 && '"' !in value && ' ' !in value && '>' !in value && |text| >= 2
    ensures Resolve(inner, |inner|, map[]) == Ok(TagText(raw, map[HrefAttribute := value], text))
  {
    assert !IsWhiteSpace(HrefAttribute[0]);
    PairToken(raw, HrefAttribute, value, map[]);
    TagEndAfter(inner, raw, text);
    SplitSingle(raw, ' ');
    assert Glue([raw]) == [raw] by {
      assert [] + [raw] == [raw];
      assert GlueFrom([raw], 0, [], false) == GlueFrom([raw], 1, [raw], false);
    }
    assert AddTokens(map[], [raw], 0) == AddTokens(map[HrefAttribute := value], [raw], 1);
  }

  /// The two tags of the sibling page.
  function FirstTag(): TagSpan {
    TagSpan(45, 67, Some("First"), Some("href=\"#first\""), map[HrefAttribute := "#first"])
  }

  function SecondTag(): TagSpan {
    TagSpan(71, 95, Some("Second"), Some("href=\"#second\""), map[HrefAttribute := "#second"])
  }

  /// Where the texts of the sibling anchors lie in the page.
  lemma SiblingTexts()
    ensures SiblingsPage[48..67] == FirstText && SiblingsPage[74..95] == SecondText
  {
    assert |SiblingsHead| == 48 && |FirstText| == 19;
    assert SiblingsPage == SiblingsHead + FirstText + (SiblingsMiddle + SecondText + SiblingsTail);
    var head := SiblingsHead + FirstText + SiblingsMiddle;
    assert |head| == 74 && |SecondText| == 21;
    assert SiblingsPage == head + SecondText + SiblingsTail;
  }

  /// The text of the first sibling anchor resolves into its tag.
  lemma FirstTextResolves()
    ensures Finish(45, 67, FirstText, false, 19) == Ok(FirstTag())
  {
    assert |FirstText| == 19;
    HrefOnly(FirstText, "href=\"#first\"", "#first", "First");
  }

  /// The text of the second sibling anchor resolves into its tag.
  lemma SecondTextResolves()
    ensures Finish(71, 95, SecondText, false, 21) == Ok(SecondTag())
  {
    assert |SecondText| == 21;
    HrefOnly(SecondText, "href=\"#second\"", "#second", "Second");
  }

  /// The delimiter pairs of the sibling page close into its two tags.
  lemma SiblingTagsClose()
    ensures Close(SiblingsPage, ATagBegin, false, 45, 67) == Ok(FirstTag())
    ensures Close(SiblingsPage, ATagBegin, false, 71, 95) == Ok(SecondTag())
  {
    SiblingTexts();
    FirstTextResolves();
    SecondTextResolves();
    CloseCutsBetweenDelimiters(SiblingsPage, ATagBegin, false, 45, 67);
    CloseCutsBetweenDelimiters(SiblingsPage, ATagBegin, false, 71, 95);
  }

  /// An occurrence stays one when text is appended.
  lemma MatchesBefore(p: string, t: string, back: string, j: int)
    requires MatchesAt(p, t, j)
    ensures MatchesAt(p, t + back, j)
  {
    forall x | 0 <= x < |p| ensures Agrees(p, t + back, j, x) {
      assert Agrees(p, t, j, x);
    }
  }

  /// An occurrence moves by the length of text prepended.
  lemma MatchesAfter(p: string, front: string, t: string, j: int)
    requires MatchesAt(p, t, j)
    ensures MatchesAt(p, front + t, |front| + j)
  {
    var k := |front| + j;
    forall x | 0 <= x < |p| ensures Agrees(p, front + t, k, x) {
      assert Agrees(p, t, j, x);
    }
  }

  lemma SiblingsHeadOpener()
    ensures MatchesAt(ATagBegin, SiblingsHead, 45)
  {
    assert Agrees(ATagBegin, SiblingsHead, 45, 0) && Agrees(ATagBegin, SiblingsHead, 45, 1);
  }

  lemma SiblingsMiddleDelimiters()
    ensures MatchesAt(ATagEnd, SiblingsMiddle, 0) && MatchesAt(ATagBegin, SiblingsMiddle, 4)
  {
    assert forall x :: 0 <= x < 4 ==> Agrees(ATagEnd, SiblingsMiddle, 0, x);
    assert forall x :: 0 <= x < 2 ==> Agrees(ATagBegin, SiblingsMiddle, 4, x);
  }

  /// The sibling page's markers are occurrences of the anchor delimiters.
  lemma SiblingsDelimiters()
    ensures MatchesAt(ATagBegin, SiblingsPage, 45) && MatchesAt(ATagEnd, SiblingsPage, 67)
    ensures MatchesAt(ATagBegin, SiblingsPage, 71) && MatchesAt(ATagEnd, SiblingsPage, 95)
  {
    var first := SiblingsHead + FirstText;
    var middle := first + SiblingsMiddle;
    var second := middle + SecondText;
    assert |SiblingsHead| == 48 && |first| == 67 && |middle| == 74 && |second| == 95;
    SiblingsHeadOpener();
    SiblingsMiddleDelimiters();
    assert MatchesAt(ATagEnd, SiblingsTail, 0) by {
      assert forall x :: 0 <= x < 4 ==> Agrees(ATagEnd, SiblingsTail, 0, x);
    }
    MatchesBefore(ATagBegin, SiblingsHead, FirstText, 45);
    MatchesBefore(ATagBegin, first, SiblingsMiddle, 45);
    MatchesAfter(ATagEnd, first, SiblingsMiddle, 0);
    MatchesAfter(ATagBegin, first, SiblingsMiddle, 4);
    MatchesBefore(ATagBegin, middle, SecondText, 45);
    MatchesBefore(ATagEnd, middle, SecondText, 67);
    MatchesBefore(ATagBegin, middle, SecondText, 71);
    MatchesBefore(ATagBegin, second, SiblingsTail, 45);
    MatchesBefore(ATagEnd, second, SiblingsTail, 67);
    MatchesBefore(ATagBegin, second, SiblingsTail, 71);
    MatchesAfter(ATagEnd, second, SiblingsTail, 0);
  }

  /// The first test: the pairing closes the two anchors in page order, and
  /// they read ("First", "#first") and ("Second", "#second").
  lemma SiblingsPageAnchors()
    ensures var entries := [Marker(true, 45), Marker(false, 67), Marker(true, 71), Marker(false, 95)];
      PairFrom(Closer(SiblingsPage, ATagBegin, false), entries, 0, [], []) == Ok([FirstTag(), SecondTag()])
    ensures var anchors := ProjectAll([FirstTag(), SecondTag()]);
      |anchors| == 2
      && anchors[0].html == Some("First") && anchors[0].href == Some("#first")
      && anchors[1].html == Some("Second") && anchors[1].href == Some("#second")
    ensures AnchorSpan(SiblingsPage, [], FirstTag()) && AnchorSpan(SiblingsPage, [], SecondTag())
  {
    SiblingsDelimiters();
    SiblingTagsClose();
    SiblingsInOrder(Closer(SiblingsPage, ATagBegin, false), 45, 67, 71, 95);
    ProjectMeaning(FirstTag());
    ProjectMeaning(SecondTag());
  }

  // ------------------------------------------------------------ logo anchor

  const LogoHead: string := "<html><head><title>Second</title></head><body><a "
  const LogoAttributes: string := "href=\"/\" itemprop=\"url\""
  const LogoImage: string := "<img itemprop=\"logo\" src=\"/img/3.0/logo_7_ru.png\" class=\"logo\" alt=\"\" />"
  const LogoTail: string := "</a></html>"

  /// The page of the second test: one anchor around an image, "<a" at 46,
  /// "</a>" at 145.
  const LogoPage: string := LogoHead + LogoAttributes + ">" + LogoImage + LogoTail

  /// The tag of the logo page: the markup inside the anchor kept verbatim.
  function LogoTag(): TagSpan {
    TagSpan(46, 145, Some(LogoImage), Some(LogoAttributes), map[HrefAttribute := "/"]["itemprop" := "url"])
  }

  /// Two name="value" attributes separated by a space.
  lemma TwoPairs(raw: string, first: string, second: string, name1: string, value1: string, name2: string, value2: string)
    requires raw == first + " " + second
    requires first == name1 + "=\"" + value1 + "\"" && second == name2 + "=\"" + value2 + "\""
    requires |name1| > 0 && !IsWhiteSpace(name1[0]) && '=' !in name1 && ' ' !in name1 && '>' !in name1
    requires |value1| > 0 && '"' !in value1 && ' ' !in value1 && '>' !in value1
    requires |name2| > 0 && !IsWhiteSpace(name2[0]) && '=' !in name2 && ' ' !in name2 && '>' !in name2
    requires |value2| > 0 && '"' !in value2 && ' ' !in value2 && '>' !in value2
    ensures '>' !in raw && |raw| > 0
    ensures AddTokens(map[], Glue(Split(raw, ' ')), 0) == Ok(map[name1 := value1][name2 := value2])
  {
    PairToken(first, name1, value1, map[]);
    PairToken(second, name2, value2, map[name1 := value1]);
    assert raw == first + [' '] + second;
    SplitAtSeparator(first, second, ' ');
    SplitSingle(first, ' ');
    SplitSingle(second, ' ');
    assert [first] + [second] == [first, second];
    assert Glue([first, second]) == [first, second] by {
      assert [] + [first] == [first] && [first] + [second] == [first, second];
      assert GlueFrom([first, second], 0, [], false) == GlueFrom([first, second], 1, [first], false);
      assert GlueFrom([first, second], 1, [first], false) == GlueFrom([first, second], 2, [first, second], false);
    }
    assert AddTokens(map[], [first, second], 0) == AddTokens(map[name1 := value1], [first, second], 1);
    assert AddTokens(map[name1 := value1], [first, second], 1)
      == AddTokens(map[name1 := value1][name2 := value2], [first, second], 2);
  }

  /// The logo anchor's attributes: an href and an itemprop.
  lemma LogoAttributesRead()
    ensures '>' !in LogoAttributes && |LogoAttributes| > 0
    ensures AddTokens(map[], Glue(Split(LogoAttributes, ' ')), 0) == Ok(map[HrefAttribute := "/"]["itemprop" := "url"])
  {
    assert !IsWhiteSpace(HrefAttribute[0]) && !IsWhiteSpace("itemprop"[0]);
    TwoPairs(LogoAttributes, "href=\"/\"", "itemprop=\"url\"", HrefAttribute, "/", "itemprop", "url");
  }

  /// The text of the logo anchor resolves into its tag.
  lemma LogoTextResolves()
    ensures Finish(46, 145, LogoAttributes + ">" + LogoImage, false, 96) == Ok(LogoTag())
  {
    var inner := LogoAttributes + ">" + LogoImage;
    assert |inner| == 96;
    LogoAttributesRead();
    TagEndAfter(inner, LogoAttributes, LogoImage);
  }

  /// The logo anchor's delimiter pair closes into its tag.
  lemma LogoTagCloses()
    ensures Close(LogoPage, ATagBegin, false, 46, 145) == Ok(LogoTag())
  {
    assert LogoPage[49..145] == LogoAttributes + ">" + LogoImage by {
      assert |LogoHead| == 49 && |LogoAttributes + ">" + LogoImage| == 96;
      assert LogoPage == LogoHead + (LogoAttributes + ">" + LogoImage) + LogoTail;
    }
    CloseCutsBetweenDelimiters(LogoPage, ATagBegin, false, 46, 145);
    LogoTextResolves();
  }

  /// The logo page's markers are occurrences of the anchor delimiters.
  lemma LogoDelimiters()
    ensures MatchesAt(ATagBegin, LogoPage, 46) && MatchesAt(ATagEnd, LogoPage, 145)
  {
    var head := LogoHead + LogoAttributes;
    var upToImage := head + ">";
    var body := upToImage + LogoImage;
    assert |LogoHead| == 49 && |body| == 145;
    assert MatchesAt(ATagBegin, LogoHead, 46) by {
      assert Agrees(ATagBegin, LogoHead, 46, 0) && Agrees(ATagBegin, LogoHead, 46, 1);
    }
    assert MatchesAt(ATagEnd, LogoTail, 0) by {
      assert forall x :: 0 <= x < 4 ==> Agrees(ATagEnd, LogoTail, 0, x);
    }
    MatchesBefore(ATagBegin, LogoHead, LogoAttributes, 46);
    MatchesBefore(ATagBegin, head, ">", 46);
    MatchesBefore(ATagBegin, upToImage, LogoImage, 46);
    MatchesBefore(ATagBegin, body, LogoTail, 46);
    MatchesAfter(ATagEnd, body, LogoTail, 0);
  }

  /// The second test: the anchor keeps the nested image markup verbatim
  /// as its Html, and its href is "/".
  lemma LogoPageAnchor()
    ensures PairFrom(Closer(LogoPage, ATagBegin, false), [Marker(true, 46), Marker(false, 145)], 0, [], [])
      == Ok([LogoTag()])
    ensures var anchors := ProjectAll([LogoTag()]);
      |anchors| == 1 && anchors[0].html == Some(LogoImage) && anchors[0].href == Some("/")
    ensures AnchorSpan(LogoPage, [], LogoTag())
  {
    LogoDelimiters();
    LogoTagCloses();
    var close := Closer(LogoPage, ATagBegin, false);
    var entries := [Marker(true, 46), Marker(false, 145)];
    assert [] + [46] == [46] && [46][..0] == [] && [] + [LogoTag()] == [LogoTag()];
    assert PairFrom(close, entries, 1, [46], []) == PairFrom(close, entries, 2, [], [LogoTag()]);
    ProjectMeaning(LogoTag());
  }
}
