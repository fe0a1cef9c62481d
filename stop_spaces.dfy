/// The exclusion ranges of the tag search (Parsing/SearchEngine.cs): the
/// stretches of the page inside comments and noindex blocks, and the filter
/// that drops every delimiter found inside one of them.
module StopSpaces {
  import opened Wrappers
  import opened TagSearchIndex
  import opened HtmlTerm
  import opened TurboSearch
  import opened TurboBoyerMoore
  import TBM = TurboBoyerMoore

  /// Tuple<int, int>: the position of a begin delimiter and of an end
  /// delimiter, both inclusive bounds of the range.
  datatype Span = Span(item1: int, item2: int)

  // ---------------------------------------------------------------- ranges

  /// The i-th begin position with the i-th end position, for every i, when
  /// there are as many of each; no ranges at all otherwise.
  function Pairing(starts: seq<int>, ends: seq<int>): (spans: seq<Span>)
    ensures |starts| == |ends| ==> |spans| == |starts|
    ensures |starts| == |ends| ==> forall k :: 0 <= k < |spans| ==> spans[k] == Span(starts[k], ends[k])
    ensures |starts| != |ends| ==> spans == []
  {
    if |starts| == |ends| then seq(|starts|, k requires 0 <= k < |starts| => Span(starts[k], ends[k])) else []
  }

  /// The ranges one begin/end delimiter pair marks in the page.
  function IgnoreSpans(html: string, beginTag: string, endTag: string): seq<Span>
    requires |beginTag| > 0 && |endTag| > 0
  {
    Pairing(SearchAsWritten(beginTag, html), SearchAsWritten(endTag, html))
  }

  /// The comment ranges, then the noindex ranges of both spellings.
  function CommonStopSpaces(html: string): seq<Span> {
    IgnoreSpans(html, CommentTagBegin, CommentTagEnd)
    + (IgnoreSpans(html, NoIndexTagBegin, NoIndexTagEnd)
       + IgnoreSpans(html, NoIndexTagBeginAlternative, NoIndexTagEndAlternative))
  }

  /// InnerFindHtmlIgnore: the positions of both delimiters are found, and
  /// the array of ranges is filled pairwise when the counts agree. Every
  /// range runs from an occurrence of the begin delimiter to an occurrence
  /// of the end delimiter.
  method InnerFindHtmlIgnore(html: string, beginTag: string, endTag: string) returns (result: seq<Span>)
    requires |beginTag| > 0 && |endTag| > 0
    ensures result == IgnoreSpans(html, beginTag, endTag)
    ensures forall k :: 0 <= k < |result| ==>
      MatchesAt(beginTag, html, result[k].item1) && MatchesAt(endTag, html, result[k].item2)
  {
    var startMarkers := TBM.TurboBoyerMoore(beginTag, html, true);
    var endMarkers := TBM.TurboBoyerMoore(endTag, html, false);
    var startTermEntry := Positions(startMarkers);
    var endTermEntry := Positions(endMarkers);
    SearchAsWrittenSound(beginTag, html);
    SearchAsWrittenSound(endTag, html);
    result := [];
    if |startTermEntry| == |endTermEntry| {
      var spans := new Span[|startTermEntry|](_ => Span(0, 0));
      var i := 0;
      while i < spans.Length
        invariant 0 <= i <= spans.Length
        invariant forall k :: 0 <= k < i ==> spans[k] == Span(startTermEntry[k], endTermEntry[k])
      {
        spans[i] := Span(startTermEntry[i], endTermEntry[i]);
        i := i + 1;
      }
      result := spans[..];
    }
  }

  /// InnerFindHtmlComments: the ranges between "<!--" and "-->".
  method InnerFindHtmlComments(html: string) returns (result: seq<Span>)
    ensures result == IgnoreSpans(html, CommentTagBegin, CommentTagEnd)
  {
    result := InnerFindHtmlIgnore(html, CommentTagBegin, CommentTagEnd);
  }

  /// InnerFindHtmlNoIndex: the ranges of both noindex spellings, tags
  /// first.
  method InnerFindHtmlNoIndex(html: string) returns (result: seq<Span>)
    ensures result == IgnoreSpans(html, NoIndexTagBegin, NoIndexTagEnd)
      + IgnoreSpans(html, NoIndexTagBeginAlternative, NoIndexTagEndAlternative)
  {
    var tags := InnerFindHtmlIgnore(html, NoIndexTagBegin, NoIndexTagEnd);
    var comments := InnerFindHtmlIgnore(html, NoIndexTagBeginAlternative, NoIndexTagEndAlternative);
    result := tags + comments;
  }

  /// InnerFindCommonStopSpaces: comment ranges, then noindex ranges.
  method InnerFindCommonStopSpaces(html: string) returns (result: seq<Span>)
    ensures result == CommonStopSpaces(html)
  {
    var comments := InnerFindHtmlComments(html);
    var noIndex := InnerFindHtmlNoIndex(html);
    result := comments + noIndex;
  }

  /// For the delimiters the engine uses, the ranges pair the k-th
  /// occurrence of the begin delimiter with the k-th occurrence of the end
  /// delimiter, nested or out of order as they may be, and a pair whose
  /// counts differ gives no range at all.
  lemma LiteralSpansPairOccurrences(html: string, beginTag: string, endTag: string)
    requires (beginTag, endTag) in [(CommentTagBegin, CommentTagEnd), (NoIndexTagBegin, NoIndexTagEnd),
                                    (NoIndexTagBeginAlternative, NoIndexTagEndAlternative)]
    ensures var starts := Occurrences(beginTag, html);
      var ends := Occurrences(endTag, html);
      var spans := IgnoreSpans(html, beginTag, endTag);
      (|starts| == |ends| ==>
        |spans| == |starts| && forall k :: 0 <= k < |spans| ==> spans[k].item1 == starts[k] && spans[k].item2 == ends[k])
      && (|starts| != |ends| ==> spans == [])
  {
    SearchedTermsFoundExactly(beginTag, html);
    SearchedTermsFoundExactly(endTag, html);
  }

  // ---------------------------------------------------------------- filter

  /// A position lies strictly before or strictly after every range.
  predicate Outside(v: int, spans: seq<Span>) {
    forall k :: 0 <= k < |spans| ==> v < spans[k].item1 || v > spans[k].item2
  }

  /// The markers that lie outside every range, in their order.
  function Keep(markers: seq<Marker>, spans: seq<Span>): (kept: seq<Marker>)
    ensures |kept| <= |markers|
    ensures forall k :: 0 <= k < |kept| ==> kept[k] in markers && Outside(kept[k].value, spans)
    ensures forall k :: 0 <= k < |markers| && Outside(markers[k].value, spans) ==> markers[k] in kept
  {
    if |markers| == 0 then []
    else (if Outside(markers[0].value, spans) then [markers[0]] else []) + Keep(markers[1..], spans)
  }

  /// Without ranges nothing is dropped.
  lemma {:induction false} KeepNone(markers: seq<Marker>)
    ensures Keep(markers, []) == markers
  {
    if |markers| > 0 {
      KeepNone(markers[1..]);
      assert markers == [markers[0]] + markers[1..];
    }
  }

  /// Filtering range by range, as the source does with one Where per
  /// range, is filtering against all ranges at once.
  lemma {:induction false} KeepStep(markers: seq<Marker>, spans: seq<Span>, span: Span)
    ensures Keep(Keep(markers, spans), [span]) == Keep(markers, spans + [span])
  {
    if |markers| > 0 {
      var v := markers[0].value;
      assert Outside(v, spans + [span]) <==> Outside(v, spans) && Outside(v, [span]) by {
        if Outside(v, spans) && Outside(v, [span]) {
          forall k | 0 <= k < |spans + [span]|
            ensures v < (spans + [span])[k].item1 || v > (spans + [span])[k].item2
          {
            if k < |spans| {
              assert (spans + [span])[k] == spans[k];
            } else {
              assert (spans + [span])[k] == [span][0];
            }
          }
        }
        if Outside(v, spans + [span]) {
          forall k | 0 <= k < |spans|
            ensures v < spans[k].item1 || v > spans[k].item2
          {
            assert (spans + [span])[k] == spans[k];
          }
          assert (spans + [span])[|spans|] == span;
        }
      }
      KeepStep(markers[1..], spans, span);
      var head := if Outside(v, spans) then [markers[0]] else [];
      var rest := Keep(markers[1..], spans);
      assert Keep(markers, spans) == head + rest;
      KeepAppend(head, rest, [span]);
    }
  }

  /// Filtering by the first i ranges and then by range i is filtering by
  /// the first i + 1 ranges.
  lemma KeepPrefixStep(markers: seq<Marker>, spans: seq<Span>, i: int)
    requires 0 <= i < |spans|
    ensures Keep(Keep(markers, spans[..i]), [spans[i]]) == Keep(markers, spans[..i + 1])
  {
    KeepStep(markers, spans[..i], spans[i]);
    assert spans[..i + 1] == spans[..i] + [spans[i]];
  }

  /// The filter distributes over concatenation.
  lemma {:induction false} KeepAppend(a: seq<Marker>, b: seq<Marker>, spans: seq<Span>)
    ensures Keep(a + b, spans) == Keep(a, spans) + Keep(b, spans)
  {
    if |a| > 0 {
      assert (a + b)[1..] == a[1..] + b;
      KeepAppend(a[1..], b, spans);
    } else {
      assert a + b == b;
    }
  }
}
