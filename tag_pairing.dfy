/// The generic tag search InnerFindTag (Parsing/SearchEngine.cs): the
/// delimiters are found, filtered against the exclusion ranges, repaired,
/// sorted, and paired with a stack, each pair giving one tag whose attributes
/// are read by the attribute reader.
module TagPairing {
  import opened Wrappers
  import opened Text
  import opened TagSearchIndex
  import opened HtmlTerm
  import opened TurboSearch
  import opened TurboBoyerMoore
  import TBM = TurboBoyerMoore
  import opened StopSpaces
  import opened Attributes
  import opened EngineFault
  import opened GenericTagResult
  import opened SearchEngineResult
  import Enumerable
  import HybridSort
  import opened HybridSortSpec

  /// The message of the error result for unpaired delimiters.
  const InvalidHtml: string := "Невалидный html"

  /// The message is usable, so the error result can be built.
  lemma InvalidHtmlUsable()
    ensures !IsNullOrWhiteSpace(Some(InvalidHtml))
  {
    assert !IsWhiteSpace(InvalidHtml[0]);
  }

  /// The position of a marker, the key the union compares.
  function MarkerValue(m: Marker): int {
    m.value
  }

  /// The start index a tag is compared by when results are united.
  function StartOf(tag: TagSpan): int {
    tag.startIndex
  }

  /// The markers the matcher returns for a delimiter.
  function Found(pattern: string, html: string, isOpeningTag: bool): seq<Marker>
    requires |pattern| > 0
  {
    MarkersAt(SearchAsWritten(pattern, html), isOpeningTag)
  }

  // -------------------------------------------------------------- filtering

  /// The loop that drops the delimiters inside exclusion ranges, one range
  /// at a time; without ranges it does not run.
  method KeepOutside(markers: seq<Marker>, stopSpaces: seq<Span>) returns (kept: seq<Marker>)
    ensures kept == Keep(markers, stopSpaces)
  {
    kept := markers;
    KeepNone(markers);
    assert stopSpaces[..0] == [];
    var i := 0;
    while i < |stopSpaces|
      invariant 0 <= i <= |stopSpaces|
      invariant kept == Keep(markers, stopSpaces[..i])
    {
      KeepPrefixStep(markers, stopSpaces, i);
      kept := Keep(kept, [stopSpaces[i]]);
      assert kept == Keep(markers, stopSpaces[..i + 1]);
      i := i + 1;
    }
    assert stopSpaces[..i] == stopSpaces;
  }

  // --------------------------------------------------------------- recovery

  /// The closing delimiters the recovery keeps, scanning them from i on with
  /// `startIndex` openers used up: a closer after the next unused opener is
  /// kept and uses it up, any other closer is dropped, and the scan stops
  /// once every opener is used.
  function RecoverFrom(starts: seq<Marker>, ends: seq<Marker>, startIndex: int, i: int): seq<Marker>
    requires 0 <= startIndex && 0 <= i <= |ends|
    decreases |ends| - i
  {
    if i == |ends| || startIndex >= |starts| then []
    else if ends[i].value > starts[startIndex].value then [ends[i]] + RecoverFrom(starts, ends, startIndex + 1, i + 1)
    else RecoverFrom(starts, ends, startIndex, i + 1)
  }

  /// The recovery loop for the "/>" and ">" end delimiters.
  method RecoverEnds(starts: seq<Marker>, ends: seq<Marker>) returns (kept: seq<Marker>)
    ensures kept == RecoverFrom(starts, ends, 0, 0)
  {
    var tmp: seq<Marker> := [];
    var startIndex := 0;
    var i := 0;
    while i < |ends|
      invariant 0 <= i <= |ends| && 0 <= startIndex
      invariant tmp + RecoverFrom(starts, ends, startIndex, i) == RecoverFrom(starts, ends, 0, 0)
    {
      if startIndex < |starts| {
        if ends[i].value > starts[startIndex].value {
          assert tmp + RecoverFrom(starts, ends, startIndex, i)
              == (tmp + [ends[i]]) + RecoverFrom(starts, ends, startIndex + 1, i + 1);
          tmp := tmp + [ends[i]];
          startIndex := startIndex + 1;
        }
      } else {
        break;
      }
      i := i + 1;
    }
    assert RecoverFrom(starts, ends, startIndex, i) == [];
    assert tmp + [] == tmp;
    kept := tmp;
  }

  /// What the recovery keeps: at most one closer per opener, closers taken
  /// in their order, and the k-th kept closer lies after the k-th opener.
  lemma {:induction false} RecoveredEndsFollowStarts(starts: seq<Marker>, ends: seq<Marker>, startIndex: int, i: int)
    requires 0 <= startIndex && 0 <= i <= |ends|
    ensures var r := RecoverFrom(starts, ends, startIndex, i);
      |r| <= |ends| - i
      && (startIndex <= |starts| ==> |r| <= |starts| - startIndex)
      && (forall k :: 0 <= k < |r| ==> r[k] in ends[i..] && r[k].value > starts[startIndex + k].value)
    decreases |ends| - i
  {
    if i < |ends| && startIndex < |starts| {
      var r := RecoverFrom(starts, ends, startIndex, i);
      if ends[i].value > starts[startIndex].value {
        RecoveredEndsFollowStarts(starts, ends, startIndex + 1, i + 1);
        var rest := RecoverFrom(starts, ends, startIndex + 1, i + 1);
        assert r == [ends[i]] + rest;
        forall k | 0 <= k < |r|
          ensures r[k] in ends[i..] && r[k].value > starts[startIndex + k].value
        {
          if k > 0 {
            assert r[k] == rest[k - 1];
            assert ends[i + 1..] == ends[i..][1..];
          }
        }
      } else {
        RecoveredEndsFollowStarts(starts, ends, startIndex, i + 1);
        assert ends[i + 1..] == ends[i..][1..];
      }
    }
  }

  // ---------------------------------------------------------------- pairing

  /// The tag a closer at `endIndex` completes for the opener at
  /// `startIndex`: the text between the delimiters (one more character
  /// skipped after a start delimiter without '>'), then, for such a start
  /// delimiter, the attribute reader on that text.
  function Close(html: string, startTag: string, closed: bool, startIndex: int, endIndex: int): Result<TagSpan, Fault> {
    var offset := if closed then 0 else 1;
    var shiftLength := endIndex - startIndex - |startTag| - offset;
    match Substring(html, startIndex + |startTag| + offset, shiftLength)
    case Err(cause) => Err(SubstringOutOfRange(cause))
    case Ok(inner) => Finish(startIndex, endIndex, inner, closed, shiftLength)
  }

  /// The tag with the text `inner` between its delimiters.
  function Finish(startIndex: int, endIndex: int, inner: string, closed: bool, shiftLength: int): Result<TagSpan, Fault> {
    if closed then Ok(TagSpan(startIndex, endIndex, Some(inner), None, map[]))
    else
      match Resolve(inner, shiftLength, map[])
      case Err(f) => Err(f)
      case Ok(t) => Ok(TagSpan(startIndex, endIndex, Some(t.html), Some(t.rawAttributesHtml), t.attributes))
  }

  /// The tag-building step the pairing uses for a start delimiter.
  function Closer(html: string, startTag: string, closed: bool): (int, int) -> Result<TagSpan, Fault> {
    (startIndex, endIndex) => Close(html, startTag, closed, startIndex, endIndex)
  }

  /// The text a closer cuts out for its opener: from just after the start
  /// delimiter (and the one character skipped when it has no '>') up to
  /// the closer; a closer that comes before that point makes Substring
  /// reject a negative length.
  lemma CloseCutsBetweenDelimiters(html: string, startTag: string, closed: bool, startIndex: int, endIndex: int)
    requires 0 <= startIndex
    ensures var offset := if closed then 0 else 1;
      var from := startIndex + |startTag| + offset;
      (from <= endIndex <= |html| ==>
        Close(html, startTag, closed, startIndex, endIndex)
        == Finish(startIndex, endIndex, html[from..endIndex], closed, endIndex - from))
      && (endIndex < from <= |html| ==>
        Close(html, startTag, closed, startIndex, endIndex) == Err(SubstringOutOfRange(NegativeLength)))
  {
  }

  /// The pairing loop from entry i on, `stack` holding the start positions
  /// of the open tags (the last one on top) and `tags` the tags closed so
  /// far: an opener is pushed, a closer pops the top and `close` builds the
  /// tag of that pair.
  function PairFrom(close: (int, int) -> Result<TagSpan, Fault>, entries: seq<Marker>, i: int,
                    stack: seq<int>, tags: seq<TagSpan>): Result<seq<TagSpan>, Fault>
    requires 0 <= i <= |entries|
    decreases |entries| - i
  {
    if i == |entries| then Ok(tags)
    else if entries[i].isOpeningTag then
      PairFrom(close, entries, i + 1, stack + [entries[i].value], tags)
    else if |stack| == 0 then Err(EmptyStack)
    else
      match close(stack[|stack| - 1], entries[i].value)
      case Err(f) => Err(f)
      case Ok(tag) => PairFrom(close, entries, i + 1, stack[..|stack| - 1], tags + [tag])
  }

  /// One closed tag: a fresh tag object is given its span and its text,
  /// then the attribute reader runs on it unless the start delimiter
  /// contains '>'.
  method CloseTag(html: string, startTag: string, closed: bool, startIndex: int, endIndex: int)
    returns (r: Result<TagSpan, Fault>)
    ensures r == Close(html, startTag, closed, startIndex, endIndex)
  {
    var offset := if closed then 0 else 1;
    var shiftLength := endIndex - startIndex - |startTag| - offset;
    var inner := Substring(html, startIndex + |startTag| + offset, shiftLength);
    if inner.Err? {
      return Err(SubstringOutOfRange(inner.error));
    }
    r := FinishTag(startIndex, endIndex, inner.value, closed, shiftLength);
  }

  /// The tag object for one pair, filled in place.
  method FinishTag(startIndex: int, endIndex: int, inner: string, closed: bool, shiftLength: int)
    returns (r: Result<TagSpan, Fault>)
    ensures r == Finish(startIndex, endIndex, inner, closed, shiftLength)
  {
    var current := new GenericTagResult();
    current.startIndex := startIndex;
    current.endIndex := endIndex;
    current.html := Some(inner);
    if !closed {
      var fault := ResolveAttributes(current, shiftLength);
      if fault.Some? {
        return Err(fault.value);
      }
    }
    r := Ok(current.Snapshot());
  }

  /// The pairing loop over the sorted delimiters. The stack holds the start
  /// positions of the open tags.
  method PairTags(html: string, startTag: string, closed: bool, entries: seq<Marker>)
    returns (r: Result<seq<TagSpan>, Fault>)
    ensures r == PairFrom(Closer(html, startTag, closed), entries, 0, [], [])
  {
    ghost var close := Closer(html, startTag, closed);
    ghost var target := PairFrom(close, entries, 0, [], []);
    var tagStack: seq<int> := [];
    var result: seq<TagSpan> := [];
    var i := 0;
    while i < |entries|
      invariant 0 <= i <= |entries|
      invariant PairFrom(close, entries, i, tagStack, result) == target
    {
      if entries[i].isOpeningTag {
        tagStack := tagStack + [entries[i].value];
      } else {
        if |tagStack| == 0 {
          return Err(EmptyStack);
        }
        var start := tagStack[|tagStack| - 1];
        var current := CloseTag(html, startTag, closed, start, entries[i].value);
        assert current == close(start, entries[i].value);
        if current.Err? {
          return Err(current.error);
        }
        assert PairFrom(close, entries, i, tagStack, result)
          == PairFrom(close, entries, i + 1, tagStack[..|tagStack| - 1], result + [current.value]);
        tagStack := tagStack[..|tagStack| - 1];
        result := result + [current.value];
      }
      i := i + 1;
    }
    r := Ok(result);
  }

  /// Openers minus closers.
  function Balance(entries: seq<Marker>): int {
    if |entries| == 0 then 0
    else Balance(entries[..|entries| - 1]) + (if entries[|entries| - 1].isOpeningTag then 1 else -1)
  }

  /// The number of closers.
  function Closers(entries: seq<Marker>): nat {
    if |entries| == 0 then 0
    else Closers(entries[..|entries| - 1]) + (if entries[|entries| - 1].isOpeningTag then 0 else 1)
  }

  /// No prefix of the delimiters holds more closers than openers.
  predicate PrefixesBalanced(entries: seq<Marker>) {
    forall n :: 0 <= n <= |entries| ==> Balance(entries[..n]) >= 0
  }

  /// The stack discipline: the pairing fails when some prefix of the
  /// delimiters closes more tags than it opens, an empty-stack fault means
  /// exactly that, and a pairing that succeeds returns one tag per closer.
  lemma PairingNeedsBalance(close: (int, int) -> Result<TagSpan, Fault>, entries: seq<Marker>)
    requires TagBuilder(close)
    ensures var r := PairFrom(close, entries, 0, [], []);
      (!PrefixesBalanced(entries) ==> r.Err?)
      && (r == Err(EmptyStack) ==> !PrefixesBalanced(entries))
      && (r.Ok? ==> |r.value| == Closers(entries))
      && (r.Err? ==> Raisable(r.error))
  {
    assert entries[..0] == [];
    PairFromBalance(close, entries, 0, [], []);
  }

  lemma {:induction false} PairFromBalance(close: (int, int) -> Result<TagSpan, Fault>, entries: seq<Marker>, i: int,
                                           stack: seq<int>, tags: seq<TagSpan>)
    requires TagBuilder(close)
    requires 0 <= i <= |entries|
    requires |stack| == Balance(entries[..i]) && |tags| == Closers(entries[..i])
    requires forall n :: 0 <= n <= i ==> Balance(entries[..n]) >= 0
    ensures var r := PairFrom(close, entries, i, stack, tags);
      (!PrefixesBalanced(entries) ==> r.Err?)
      && (r == Err(EmptyStack) ==> !PrefixesBalanced(entries))
      && (r.Ok? ==> |r.value| == Closers(entries))
      && (r.Err? ==> Raisable(r.error))
    decreases |entries| - i
  {
    if i == |entries| {
      assert entries[..i] == entries;
    } else {
      var prefix := entries[..i + 1];
      assert prefix[..i] == entries[..i];
      if entries[i].isOpeningTag {
        PairFromBalance(close, entries, i + 1, stack + [entries[i].value], tags);
      } else if |stack| == 0 {
        assert Balance(prefix) < 0;
      } else {
        var r := close(stack[|stack| - 1], entries[i].value);
        assert BuildsTag(close, stack[|stack| - 1], entries[i].value);
        if r.Ok? {
          PairFromBalance(close, entries, i + 1, stack[..|stack| - 1], tags + [r.value]);
        }
      }
    }
  }

  /// The tag `close` builds for one pair has the span of that pair, and its
  /// fault is one of the substring or of the attribute check.
  ghost predicate BuildsTag(close: (int, int) -> Result<TagSpan, Fault>, startIndex: int, endIndex: int) {
    match close(startIndex, endIndex)
    case Ok(tag) => tag.startIndex == startIndex && tag.endIndex == endIndex
    case Err(f) => !f.EmptyStack? && Raisable(f)
  }

  /// A tag-building step that does so for every pair.
  ghost predicate TagBuilder(close: (int, int) -> Result<TagSpan, Fault>) {
    forall startIndex, endIndex :: BuildsTag(close, startIndex, endIndex)
  }

  /// The engine's tag-building step is one: the span is kept, and the
  /// attribute reader on the whole inner text fails only on a blank name.
  lemma CloserIsTagBuilder(html: string, startTag: string, closed: bool)
    ensures TagBuilder(Closer(html, startTag, closed))
  {
    var close := Closer(html, startTag, closed);
    forall startIndex, endIndex
      ensures BuildsTag(close, startIndex, endIndex)
    {
      assert close(startIndex, endIndex) == Close(html, startTag, closed, startIndex, endIndex);
      var offset := if closed then 0 else 1;
      var shiftLength := endIndex - startIndex - |startTag| - offset;
      var inner := Substring(html, startIndex + |startTag| + offset, shiftLength);
      if inner.Ok? && !closed && Resolve(inner.value, shiftLength, map[]).Err? {
        ResolveFailsOnlyOnNames(inner.value, map[]);
      }
    }
  }

  /// Every tag the pairing returns spans from an opener to a closer of the
  /// delimiters it was given.
  lemma PairedSpansComeFromMarkers(close: (int, int) -> Result<TagSpan, Fault>, entries: seq<Marker>)
    requires TagBuilder(close)
    requires PairFrom(close, entries, 0, [], []).Ok?
    ensures forall t :: t in PairFrom(close, entries, 0, [], []).value ==>
      Marker(true, t.startIndex) in entries && Marker(false, t.endIndex) in entries
  {
    PairFromSpans(close, entries, 0, [], []);
  }

  lemma {:induction false} PairFromSpans(close: (int, int) -> Result<TagSpan, Fault>, entries: seq<Marker>, i: int,
                                         stack: seq<int>, tags: seq<TagSpan>)
    requires TagBuilder(close)
    requires 0 <= i <= |entries|
    requires forall v :: v in stack ==> Marker(true, v) in entries
    requires forall t :: t in tags ==> Marker(true, t.startIndex) in entries && Marker(false, t.endIndex) in entries
    requires PairFrom(close, entries, i, stack, tags).Ok?
    ensures forall t :: t in PairFrom(close, entries, i, stack, tags).value ==>
      Marker(true, t.startIndex) in entries && Marker(false, t.endIndex) in entries
    decreases |entries| - i
  {
    if i < |entries| {
      if entries[i].isOpeningTag {
        assert entries[i] == Marker(true, entries[i].value);
        PairFromSpans(close, entries, i + 1, stack + [entries[i].value], tags);
      } else {
        var top := stack[|stack| - 1];
        assert top in stack;
        assert BuildsTag(close, top, entries[i].value);
        var tag := close(top, entries[i].value).value;
        assert entries[i] == Marker(false, tag.endIndex);
        assert forall v :: v in stack[..|stack| - 1] ==> v in stack;
        PairFromSpans(close, entries, i + 1, stack[..|stack| - 1], tags + [tag]);
      }
    }
  }

  /// Openers at distinct positions give tags with distinct starts: each
  /// opener is pushed once and popped at most once.
  lemma PairedStartsDistinct(close: (int, int) -> Result<TagSpan, Fault>, entries: seq<Marker>)
    requires TagBuilder(close)
    requires Enumerable.DistinctKeys(entries, MarkerValue)
    requires PairFrom(close, entries, 0, [], []).Ok?
    ensures Enumerable.DistinctKeys(PairFrom(close, entries, 0, [], []).value, StartOf)
  {
    PairFromDistinctStarts(close, entries, 0, [], []);
  }

  /// The open positions and the starts of the closed tags are all
  /// different from each other.
  predicate StartsApart(stack: seq<int>, tags: seq<TagSpan>) {
    (forall a, b :: 0 <= a < b < |stack| ==> stack[a] != stack[b])
    && (forall a, b :: 0 <= a < b < |tags| ==> tags[a].startIndex != tags[b].startIndex)
    && (forall a, b :: 0 <= a < |stack| && 0 <= b < |tags| ==> stack[a] != tags[b].startIndex)
  }

  lemma {:induction false} PairFromDistinctStarts(close: (int, int) -> Result<TagSpan, Fault>, entries: seq<Marker>,
                                                  i: int, stack: seq<int>, tags: seq<TagSpan>)
    requires TagBuilder(close)
    requires Enumerable.DistinctKeys(entries, MarkerValue)
    requires 0 <= i <= |entries|
    requires forall v :: v in stack ==> Marker(true, v) in entries[..i]
    requires forall t :: t in tags ==> Marker(true, t.startIndex) in entries[..i]
    requires StartsApart(stack, tags)
    requires PairFrom(close, entries, i, stack, tags).Ok?
    ensures Enumerable.DistinctKeys(PairFrom(close, entries, i, stack, tags).value, StartOf)
    decreases |entries| - i
  {
    if i == |entries| {
      assert Enumerable.DistinctKeys(tags, StartOf);
    } else {
      var v := entries[i].value;
      assert entries[..i + 1] == entries[..i] + [entries[i]];
      if entries[i].isOpeningTag {
        forall w | w in stack + [v] ensures w != v ==> w in stack {}
        assert forall k :: 0 <= k < i ==> entries[k].value != v;
        assert v !in stack && forall t :: t in tags ==> t.startIndex != v;
        var pushed := stack + [v];
        assert forall a :: 0 <= a < |stack| ==> pushed[a] == stack[a];
        PairFromDistinctStarts(close, entries, i + 1, pushed, tags);
      } else {
        var rest := stack[..|stack| - 1];
        var top := stack[|stack| - 1];
        assert BuildsTag(close, top, v);
        var tag := close(top, v).value;
        assert forall w :: w in rest ==> w in stack;
        var closed := tags + [tag];
        assert forall b :: 0 <= b < |tags| ==> closed[b] == tags[b];
        assert forall a :: 0 <= a < |rest| ==> rest[a] != top;
        PairFromDistinctStarts(close, entries, i + 1, rest, closed);
      }
    }
  }

  /// Two tags one after the other are closed in their order.
  lemma SiblingsInOrder(close: (int, int) -> Result<TagSpan, Fault>, s1: int, e1: int, s2: int, e2: int)
    requires close(s1, e1).Ok? && close(s2, e2).Ok?
    ensures PairFrom(close, [Marker(true, s1), Marker(false, e1), Marker(true, s2), Marker(false, e2)], 0, [], [])
      == Ok([close(s1, e1).value, close(s2, e2).value])
  {
    var entries := [Marker(true, s1), Marker(false, e1), Marker(true, s2), Marker(false, e2)];
    var t1 := close(s1, e1).value;
    var t2 := close(s2, e2).value;
    assert [] + [s1] == [s1] && [s1][..0] == [];
    assert [] + [t1] == [t1];
    assert [] + [s2] == [s2] && [s2][..0] == [];
    assert [t1] + [t2] == [t1, t2];
    assert PairFrom(close, entries, 3, [s2], [t1]) == PairFrom(close, entries, 4, [], [t1, t2]);
    assert PairFrom(close, entries, 1, [s1], []) == PairFrom(close, entries, 2, [], [t1]);
  }

  /// A tag inside another is closed first: the stack pairs the inner closer
  /// with the inner opener.
  lemma NestedInnerFirst(close: (int, int) -> Result<TagSpan, Fault>, s1: int, s2: int, e2: int, e1: int)
    requires close(s2, e2).Ok? && close(s1, e1).Ok?
    ensures PairFrom(close, [Marker(true, s1), Marker(true, s2), Marker(false, e2), Marker(false, e1)], 0, [], [])
      == Ok([close(s2, e2).value, close(s1, e1).value])
  {
    var entries := [Marker(true, s1), Marker(true, s2), Marker(false, e2), Marker(false, e1)];
    var inner := close(s2, e2).value;
    var outer := close(s1, e1).value;
    assert [] + [s1] == [s1] && [s1] + [s2] == [s1, s2] && [s1, s2][..1] == [s1] && [s1][..0] == [];
    assert [] + [inner] == [inner] && [inner] + [outer] == [inner, outer];
    assert PairFrom(close, entries, 3, [s1], [inner]) == PairFrom(close, entries, 4, [], [inner, outer]);
    assert PairFrom(close, entries, 2, [s1, s2], []) == PairFrom(close, entries, 3, [s1], [inner]);
  }

  // ----------------------------------------------------------------- search

  /// What a tag search returns: the tags found, or none, and an error
  /// message.
  datatype TagSearch = TagSearch(data: Option<seq<TagSpan>>, errorMessage: Option<string>)

  /// The delimiters found for a search, after filtering and repair.
  function Delimiters(html: string, startTag: string, endTag: string, stopSpaces: seq<Span>)
    : (r: (seq<Marker>, seq<Marker>))
    requires |startTag| > 0 && |endTag| > 0
  {
    var starts := Keep(Found(startTag, html, true), stopSpaces);
    var kept := Keep(Found(endTag, html, false), stopSpaces);
    var ends := if |starts| != |kept| && (endTag == TagEnd || endTag == TagEndAlternative)
                then RecoverFrom(starts, kept, 0, 0) else kept;
    (starts, ends)
  }

  /// InnerFindTag as a function of its inputs; a fault is the exception it
  /// raises.
  function FindTag(html: string, startTag: string, endTag: string, stopSpaces: seq<Span>, errorIfNotValid: bool)
    : Result<TagSearch, Fault>
    requires |startTag| > 0 && |endTag| > 0
  {
    if |Found(startTag, html, true)| == 0 then Ok(TagSearch(Some([]), None))
    else
      var (starts, ends) := Delimiters(html, startTag, endTag, stopSpaces);
      if errorIfNotValid && |starts| != |ends| then Ok(TagSearch(None, Some(InvalidHtml)))
      else
        var entries := HybridSorted(Enumerable.Union(starts, ends, MarkerValue));
        match PairFrom(Closer(html, startTag, '>' in startTag), entries, 0, [], [])
        case Err(f) => Err(f)
        case Ok(tags) => Ok(TagSearch(Some(tags), None))
  }

  /// Every opener the search keeps is an occurrence of the start delimiter
  /// outside the exclusion ranges, and every closer one of the end
  /// delimiter.
  lemma DelimitersAreOccurrences(html: string, startTag: string, endTag: string, stopSpaces: seq<Span>)
    requires |startTag| > 0 && |endTag| > 0
    ensures var (starts, ends) := Delimiters(html, startTag, endTag, stopSpaces);
      (forall m :: m in starts ==> m.isOpeningTag && MatchesAt(startTag, html, m.value) && Outside(m.value, stopSpaces))
      && (forall m :: m in ends ==> !m.isOpeningTag && MatchesAt(endTag, html, m.value) && Outside(m.value, stopSpaces))
  {
    var (starts, ends) := Delimiters(html, startTag, endTag, stopSpaces);
    var kept := Keep(Found(endTag, html, false), stopSpaces);
    SearchAsWrittenSound(startTag, html);
    SearchAsWrittenSound(endTag, html);
    forall m | m in starts
      ensures m.isOpeningTag && MatchesAt(startTag, html, m.value) && Outside(m.value, stopSpaces)
    {
      var k :| 0 <= k < |starts| && starts[k] == m;
      var j :| 0 <= j < |Found(startTag, html, true)| && Found(startTag, html, true)[j] == m;
    }
    assert forall m :: m in kept ==> !m.isOpeningTag && MatchesAt(endTag, html, m.value) && Outside(m.value, stopSpaces) by {
      forall m | m in kept
        ensures !m.isOpeningTag && MatchesAt(endTag, html, m.value) && Outside(m.value, stopSpaces)
      {
        var k :| 0 <= k < |kept| && kept[k] == m;
        var j :| 0 <= j < |Found(endTag, html, false)| && Found(endTag, html, false)[j] == m;
      }
    }
    if ends != kept {
      RecoveredEndsFollowStarts(starts, kept, 0, 0);
      forall m | m in ends ensures m in kept {
        var k :| 0 <= k < |ends| && ends[k] == m;
        assert kept[0..] == kept;
      }
    }
  }

  /// The search's results: an error message exactly when no tags are
  /// returned, and that only for unpaired delimiters when asked for; a
  /// fault only from the stack, the substring or the attribute check; and
  /// every tag runs from an occurrence of the start delimiter to one of the
  /// end delimiter, both outside every exclusion range.
  lemma FoundTagsSpanDelimiters(html: string, startTag: string, endTag: string, stopSpaces: seq<Span>,
                                errorIfNotValid: bool)
    requires |startTag| > 0 && |endTag| > 0
    ensures var r := FindTag(html, startTag, endTag, stopSpaces, errorIfNotValid);
      (r.Err? ==> Raisable(r.error))
      && (r.Ok? ==> (r.value.data.Some? <==> r.value.errorMessage.None?))
      && (r.Ok? && r.value.errorMessage.Some? ==> errorIfNotValid && r.value.errorMessage == Some(InvalidHtml))
      && (r.Ok? && r.value.data.Some? ==> forall t :: t in r.value.data.value ==>
            MatchesAt(startTag, html, t.startIndex) && Outside(t.startIndex, stopSpaces)
            && MatchesAt(endTag, html, t.endIndex) && Outside(t.endIndex, stopSpaces))
  {
    var (starts, ends) := Delimiters(html, startTag, endTag, stopSpaces);
    if |Found(startTag, html, true)| > 0 && !(errorIfNotValid && |starts| != |ends|) {
      var union := Enumerable.Union(starts, ends, MarkerValue);
      var entries := HybridSorted(union);
      var close := Closer(html, startTag, '>' in startTag);
      CloserIsTagBuilder(html, startTag, '>' in startTag);
      PairingNeedsBalance(close, entries);
      DelimitersAreOccurrences(html, startTag, endTag, stopSpaces);
      var r := PairFrom(close, entries, 0, [], []);
      if r.Ok? {
        PairedSpansComeFromMarkers(close, entries);
        HybridSortedPermutes(union);
        forall m | m in entries
          ensures m in starts || m in ends
        {
          assert m in multiset(union);
          var k :| 0 <= k < |union| && union[k] == m;
          assert m in starts + ends;
        }
      }
    }
  }

  /// No two tags of a search start at the same position: the union keeps
  /// one marker per position, and sorting only reorders them.
  lemma FoundStartsDistinct(html: string, startTag: string, endTag: string, stopSpaces: seq<Span>,
                            errorIfNotValid: bool)
    requires |startTag| > 0 && |endTag| > 0
    ensures var r := FindTag(html, startTag, endTag, stopSpaces, errorIfNotValid);
      r.Ok? && r.value.data.Some? ==> Enumerable.DistinctKeys(r.value.data.value, StartOf)
  {
    var (starts, ends) := Delimiters(html, startTag, endTag, stopSpaces);
    if |Found(startTag, html, true)| > 0 && !(errorIfNotValid && |starts| != |ends|) {
      var union := Enumerable.Union(starts, ends, MarkerValue);
      var entries := HybridSorted(union);
      var close := Closer(html, startTag, '>' in startTag);
      if PairFrom(close, entries, 0, [], []).Ok? {
        CloserIsTagBuilder(html, startTag, '>' in startTag);
        HybridSortedPermutes(union);
        Enumerable.PermutedDistinctKeys(union, entries, MarkerValue);
        PairedStartsDistinct(close, entries);
      }
    }
  }

  /// Markers with strictly ascending positions.
  predicate MarkersAscending(markers: seq<Marker>) {
    forall a, b :: 0 <= a < b < |markers| ==> markers[a].value < markers[b].value
  }

  /// Filtering keeps the order of the markers.
  lemma {:induction false} KeepAscending(markers: seq<Marker>, spans: seq<Span>)
    requires MarkersAscending(markers)
    ensures MarkersAscending(Keep(markers, spans))
    decreases |markers|
  {
    if |markers| > 0 {
      var tail := markers[1..];
      var rest := Keep(tail, spans);
      assert MarkersAscending(tail) by {
        forall a, b | 0 <= a < b < |tail| ensures tail[a].value < tail[b].value {
          assert tail[a] == markers[a + 1] && tail[b] == markers[b + 1];
        }
      }
      KeepAscending(tail, spans);
      if Outside(markers[0].value, spans) {
        assert forall m :: m in tail ==> markers[0].value < m.value by {
          forall m | m in tail ensures markers[0].value < m.value {
            var k :| 0 <= k < |tail| && tail[k] == m;
            assert markers[k + 1] == m;
          }
        }
        ConsAscending(markers[0], rest);
      }
    }
  }

  /// A marker before ascending markers that all come after it.
  lemma ConsAscending(x: Marker, rest: seq<Marker>)
    requires MarkersAscending(rest)
    requires forall k :: 0 <= k < |rest| ==> x.value < rest[k].value
    ensures MarkersAscending([x] + rest)
  {
    var kept := [x] + rest;
    forall a, b | 0 <= a < b < |kept| ensures kept[a].value < kept[b].value {
      assert kept[b] == rest[b - 1];
      if a > 0 {
        assert kept[a] == rest[a - 1];
      }
    }
  }

  /// A closer at position 0 can never be paired: the stack holds only
  /// openers after position 0, and a tag cannot end before it starts.
  lemma {:induction false} PairFromFailsAtZeroCloser(close: (int, int) -> Result<TagSpan, Fault>, entries: seq<Marker>,
                                                     i: int, stack: seq<int>, tags: seq<TagSpan>)
    requires 0 <= i <= |entries|
    requires forall s :: s > 0 ==> close(s, 0).Err?
    requires forall k :: i <= k < |entries| && entries[k].isOpeningTag ==> entries[k].value > 0
    requires forall v :: v in stack ==> v > 0
    requires Marker(false, 0) in entries[i..]
    ensures PairFrom(close, entries, i, stack, tags).Err?
    decreases |entries| - i
  {
    assert entries[i..] == [entries[i]] + entries[i + 1..];
    if entries[i].isOpeningTag {
      assert forall v :: v in stack + [entries[i].value] ==> v in stack || v == entries[i].value;
      PairFromFailsAtZeroCloser(close, entries, i + 1, stack + [entries[i].value], tags);
    } else if |stack| > 0 {
      var top := stack[|stack| - 1];
      var rest := stack[..|stack| - 1];
      assert top in stack;
      if entries[i] != Marker(false, 0) && close(top, entries[i].value).Ok? {
        forall v | v in rest ensures v > 0 {
          var k :| 0 <= k < |rest| && rest[k] == v;
          assert stack[k] in stack;
        }
        PairFromFailsAtZeroCloser(close, entries, i + 1, rest, tags + [close(top, entries[i].value).value]);
      }
    }
  }

  /// No tag ends at position 0: the text after its opener would have a
  /// negative length.
  lemma CloserRejectsZeroEnd(html: string, startTag: string, closed: bool)
    ensures forall s :: s > 0 ==> Closer(html, startTag, closed)(s, 0).Err?
  {
    forall s | s > 0 ensures Closer(html, startTag, closed)(s, 0).Err? {
      var offset := if closed then 0 else 1;
      assert Substring(html, s + |startTag| + offset, 0 - s - |startTag| - offset).Err?;
    }
  }

  /// The union the search sorts holds occurrences only, so no position is
  /// negative, and a zero position on an opener can only be the first.
  lemma FoundUnionZeroFirst(html: string, startTag: string, endTag: string, stopSpaces: seq<Span>)
    requires |startTag| > 0 && |endTag| > 0
    ensures var (starts, ends) := Delimiters(html, startTag, endTag, stopSpaces);
      var union := Enumerable.Union(starts, ends, MarkerValue);
      NonNegative(union)
      && forall j :: 0 <= j < |union| && union[j].isOpeningTag && union[j].value == 0 ==> j == 0
  {
    var (starts, ends) := Delimiters(html, startTag, endTag, stopSpaces);
    var union := Enumerable.Union(starts, ends, MarkerValue);
    DelimitersAreOccurrences(html, startTag, endTag, stopSpaces);
    forall k | 0 <= k < |union| ensures union[k].value >= 0 && (union[k].isOpeningTag ==> union[k] in starts) {
      assert union[k] in starts + ends;
    }
    forall j | 0 <= j < |union| && union[j].isOpeningTag && union[j].value == 0 ensures j == 0 {
      var found := Found(startTag, html, true);
      SearchAsWrittenSound(startTag, html);
      assert MarkersAscending(found) by {
        forall a, b | 0 <= a < b < |found| ensures found[a].value < found[b].value {
          assert found[a].value == SearchAsWritten(startTag, html)[a];
          assert found[b].value == SearchAsWritten(startTag, html)[b];
        }
      }
      KeepAscending(found, stopSpaces);
      assert (starts + ends)[0] == starts[0];
      assert union[0] == starts[0];
    }
  }

  /// The markers the search sorts are never negative, and either the sort
  /// leaves them in ascending order or the pairing raises: a zero that is
  /// not first in the union is a closer at position 0, which no opener can
  /// precede.
  lemma FoundEntriesSortedOrUnpaired(html: string, startTag: string, endTag: string, stopSpaces: seq<Span>)
    requires |startTag| > 0 && |endTag| > 0
    ensures var (starts, ends) := Delimiters(html, startTag, endTag, stopSpaces);
      var union := Enumerable.Union(starts, ends, MarkerValue);
      var entries := HybridSorted(union);
      NonNegative(union)
      && (Sorted(entries) || PairFrom(Closer(html, startTag, '>' in startTag), entries, 0, [], []).Err?)
  {
    var (starts, ends) := Delimiters(html, startTag, endTag, stopSpaces);
    var union := Enumerable.Union(starts, ends, MarkerValue);
    var entries := HybridSorted(union);
    FoundUnionZeroFirst(html, startTag, endTag, stopSpaces);
    if ZeroPrefix(union) {
      HybridSortedAscending(union);
    } else {
      var i, j :| 0 <= i < j < |union| && union[j].value == 0 && union[i].value != 0;
      assert union[j] == Marker(false, 0);
      HybridSortedPermutes(union);
      forall k | 0 <= k < |entries| && entries[k].isOpeningTag ensures entries[k].value > 0 {
        assert entries[k] in multiset(union);
        var p :| 0 <= p < |union| && union[p] == entries[k];
        assert p != j;
      }
      assert union[j] in multiset(entries);
      assert entries[0..] == entries;
      CloserRejectsZeroEnd(html, startTag, '>' in startTag);
      PairFromFailsAtZeroCloser(Closer(html, startTag, '>' in startTag), entries, 0, [], []);
    }
  }

  /// The contents of the result object a search returned.
  function Observe(r: Result<SearchEngineResult<TagSpan>, Fault>): Result<TagSearch, Fault>
    reads if r.Ok? then {r.value} else {}
  {
    match r
    case Err(f) => Err(f)
    case Ok(found) => Ok(TagSearch(found.data, found.errorMessage))
  }

  /// The union of the delimiters, copied into an array and sorted in place.
  method SortEntries(entries: seq<Marker>) returns (sorted: seq<Marker>)
    ensures sorted == HybridSorted(entries)
  {
    var termEntries := new Marker[|entries|](k requires 0 <= k < |entries| => entries[k]);
    assert termEntries[..] == entries;
    var _ := HybridSort.Sort(termEntries);
    sorted := termEntries[..];
  }

  /// InnerFindTag. No start delimiter gives an empty result at once.
  /// Otherwise the delimiters inside exclusion ranges are dropped, the
  /// closers repaired for the "/>" and ">" end delimiters, unequal counts
  /// reported when asked for, and the sorted delimiters paired.
  method InnerFindTag(html: string, startTag: string, endTag: string, stopSpaces: seq<Span>, errorIfNotValid: bool)
    returns (r: Result<SearchEngineResult<TagSpan>, Fault>)
    requires |startTag| > 0 && |endTag| > 0
    ensures r.Ok? ==> fresh(r.value)
    ensures Observe(r) == FindTag(html, startTag, endTag, stopSpaces, errorIfNotValid)
  {
    var startTermEntry := TBM.TurboBoyerMoore(startTag, html, true);
    if |startTermEntry| == 0 {
      var empty := new SearchEngineResult<TagSpan>.FromData(Some([]));
      return Ok(empty);
    }
    var endTermEntry := TBM.TurboBoyerMoore(endTag, html, false);
    startTermEntry := KeepOutside(startTermEntry, stopSpaces);
    endTermEntry := KeepOutside(endTermEntry, stopSpaces);
    if |startTermEntry| != |endTermEntry| && (endTag == TagEnd || endTag == TagEndAlternative) {
      endTermEntry := RecoverEnds(startTermEntry, endTermEntry);
    }
    if errorIfNotValid && |startTermEntry| != |endTermEntry| {
      InvalidHtmlUsable();
      var invalid := SearchEngineResult<TagSpan>.WithError(Some(InvalidHtml));
      return Ok(invalid.value);
    }
    var isStartTagClosed := '>' in startTag;
    var termEntries := SortEntries(Enumerable.Union(startTermEntry, endTermEntry, MarkerValue));
    var paired := PairTags(html, startTag, isStartTagClosed, termEntries);
    if paired.Err? {
      return Err(paired.error);
    }
    var result := new SearchEngineResult<TagSpan>.FromData(Some(paired.value));
    return Ok(result);
  }
}
