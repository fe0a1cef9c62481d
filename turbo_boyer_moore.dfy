/// SearchEngine.TurboBoyerMoore (Parsing/SearchEngine.cs): every position
/// where a delimiter occurs in the page, as markers of one role.
module TurboBoyerMoore {
  import opened Wrappers
  import opened SymbolMap
  import opened ShiftSpec
  import opened ShiftTables
  import opened TurboSearch
  import opened TagSearchIndex
  import opened HtmlTerm

  /// The positions of a list of markers.
  function Positions(markers: seq<Marker>): (r: seq<int>)
    ensures |r| == |markers|
  {
    if |markers| == 0 then [] else [markers[0].value] + Positions(markers[1..])
  }

  /// Each position is the value of the marker at the same index.
  lemma {:induction false} PositionsMeaning(markers: seq<Marker>)
    ensures forall k :: 0 <= k < |markers| ==> Positions(markers)[k] == markers[k].value
  {
    if |markers| > 0 {
      PositionsMeaning(markers[1..]);
    }
  }

  /// The markers for a list of positions, all with the same role.
  function MarkersAt(positions: seq<int>, isOpeningTag: bool): (markers: seq<Marker>)
    ensures |markers| == |positions|
    ensures forall k :: 0 <= k < |markers| ==> markers[k] == Marker(isOpeningTag, positions[k])
  {
    seq(|positions|, k requires 0 <= k < |positions| => Marker(isOpeningTag, positions[k]))
  }

  /// Positions distributes over appending one marker.
  lemma {:induction false} PositionsAppend(markers: seq<Marker>, x: Marker)
    ensures Positions(markers + [x]) == Positions(markers) + [x.value]
  {
    if |markers| > 0 {
      assert (markers + [x])[1..] == markers[1..] + [x];
      PositionsAppend(markers[1..], x);
    }
  }

  /// The search loop, the Boyer–Moore tables built first. The markers are
  /// the positions SearchAsWritten reports, so they are occurrences in
  /// ascending order, and all of them when the pattern is one the engine
  /// searches for.
  method TurboBoyerMoore(pattern: string, text: string, isOpeningTag: bool) returns (result: seq<Marker>)
    requires |pattern| > 0
    ensures Positions(result) == SearchAsWritten(pattern, text)
    ensures forall k :: 0 <= k < |result| ==> result[k].isOpeningTag == isOpeningTag
    ensures forall k :: 0 <= k < |result| ==> MatchesAt(pattern, text, result[k].value)
    ensures forall a, b :: 0 <= a < b < |result| ==> result[a].value < result[b].value
    ensures AllMapped(pattern) && UniqueTail2(pattern) ==> Positions(result) == Occurrences(pattern, text)
    ensures result == MarkersAt(SearchAsWritten(pattern, text), isOpeningTag)
  {
    result := [];
    var m := |pattern|;
    var n := |text|;
    if m <= n {
      var bmgs := GoodShiftTable(pattern);
      var bmbc := BadCharacterTable(pattern);
      assert IsGoodShiftTable(pattern, bmgs) && IsBadCharacterTable(pattern, bmbc);
      result := Search(pattern, text, isOpeningTag, bmgs, bmbc);
    }
    assert Positions(result) == SearchAsWritten(pattern, text);
    PositionsMeaning(result);
    assert result == MarkersAt(SearchAsWritten(pattern, text), isOpeningTag);
    SearchAsWrittenSound(pattern, text);
    if AllMapped(pattern) && UniqueTail2(pattern) {
      SearchAsWrittenExact(pattern, text);
    }
  }

  /// One window of the loop: a match found moves its position from the
  /// search still to run to the markers already found.
  lemma AdvanceStep(p: string, t: string, tb: Tables, j: int, k1: int, shift: int, i: int, next: (int, int),
                    found: seq<Marker>, found': seq<Marker>, isOpeningTag: bool)
    requires Shape(p, j, k1, shift) && j <= |t| - |p| && Bounded(p, tb)
    requires i == Scan(p, t, j, k1, shift, |p| - 1) && next == Next(p, t, tb, j, k1, i, true)
    requires found' == if i < 0 then found + [Marker(isOpeningTag, j)] else found
    ensures Shape(p, j + next.0, next.1, next.0)
    ensures Positions(found') + Run(p, t, tb, j + next.0, next.1, next.0, true)
         == Positions(found) + Run(p, t, tb, j, k1, shift, true)
  {
    RunStep(p, t, tb, j, k1, shift, true, i, next);
    FoundStep(found, found', Marker(isOpeningTag, j), i < 0,
              Run(p, t, tb, j + next.0, next.1, next.0, true), Run(p, t, tb, j, k1, shift, true));
  }

  /// Reporting a match (or not) keeps the found positions followed by the
  /// positions still to come unchanged.
  lemma FoundStep(found: seq<Marker>, found': seq<Marker>, m: Marker, matched: bool, rest: seq<int>, whole: seq<int>)
    requires found' == if matched then found + [m] else found
    requires whole == (if matched then [m.value] else []) + rest
    ensures Positions(found') + rest == Positions(found) + whole
  {
    if matched {
      PositionsAppend(found, m);
      assert Positions(found') + rest == Positions(found) + ([m.value] + rest);
    } else {
      assert whole == rest;
    }
  }

  /// The searching phase: one window after another, every full match
  /// reported with the given role.
  method Search(pattern: string, text: string, isOpeningTag: bool, bmgs: array<int>, bmbc: array<int>)
    returns (result: seq<Marker>)
    requires 0 < |pattern| <= |text|
    requires IsGoodShiftTable(pattern, bmgs) && IsBadCharacterTable(pattern, bmbc)
    ensures Positions(result) == Run(pattern, text, TablesFor(pattern), 0, 0, |pattern|, true)
    ensures forall k :: 0 <= k < |result| ==> result[k].isOpeningTag == isOpeningTag
  {
    result := [];
    var m := |pattern|;
    var n := |text|;
    ghost var tb := TablesFor(pattern);
    ghost var total := Run(pattern, text, tb, 0, 0, m, true);
    var j, k1, shift := 0, 0, m;
    while j <= n - m
      invariant Shape(pattern, j, k1, shift)
      invariant Positions(result) + Run(pattern, text, tb, j, k1, shift, true) == total
      invariant forall k :: 0 <= k < |result| ==> result[k].isOpeningTag == isOpeningTag
      decreases n - j
    {
      var i := CompareWindow(pattern, text, j, k1, shift);
      var nextShift, nextK1 := NextShift(pattern, text, j, k1, i, bmgs, bmbc);
      ghost var found := result;
      if i < 0 {
        result := result + [Marker(isOpeningTag, j)];
      }
      AdvanceStep(pattern, text, tb, j, k1, shift, i, (nextShift, nextK1), found, result, isOpeningTag);
      shift, k1 := nextShift, nextK1;
      j := j + shift;
    }
  }

  /// `table` holds the good-suffix shift of every position.
  predicate IsGoodShiftTable(p: string, table: array<int>)
    reads table
  {
    table.Length == |p| && forall x :: 0 <= x < |p| ==> table[x] == GoodSuffixShift(p, x)
  }

  /// `table` holds the bad-character entry of every alphabet slot.
  predicate IsBadCharacterTable(p: string, table: array<int>)
    requires |p| > 0
    reads table
  {
    table.Length == AlphabetSize && forall sym :: 0 <= sym < AlphabetSize ==> table[sym] == BadCharEntry(p, sym)
  }

  /// The inner loop: compare the window at j right to left, jumping over
  /// the remembered factor; -1 after a full match, else the mismatch.
  method CompareWindow(pattern: string, text: string, j: int, k1: int, shift: int) returns (i: int)
    requires Shape(pattern, j, k1, shift) && j + |pattern| <= |text|
    ensures i == Scan(pattern, text, j, k1, shift, |pattern| - 1)
  {
    var m := |pattern|;
    i := m - 1;
    while i >= 0 && pattern[i] == text[i + j]
      invariant -1 <= i < m
      invariant Scan(pattern, text, j, k1, shift, i) == Scan(pattern, text, j, k1, shift, m - 1)
      decreases i
    {
      i := i - 1;
      if k1 != 0 && i == m - 1 - shift {
        i := i - k1;
      }
    }
  }

  /// The shift and memory update after a window, read from the tables.
  method NextShift(pattern: string, text: string, j: int, k1: int, i: int, bmgs: array<int>, bmbc: array<int>)
    returns (shift: int, k1': int)
    requires |pattern| > 0 && 0 <= j && j + |pattern| <= |text| && -1 <= i < |pattern| && 0 <= k1 < |pattern|
    requires IsGoodShiftTable(pattern, bmgs) && IsBadCharacterTable(pattern, bmbc)
    ensures (shift, k1') == Next(pattern, text, TablesFor(pattern), j, k1, i, true)
  {
    var m := |pattern|;
    if i < 0 {
      shift := bmgs[0];
      k1' := m - shift;
    } else {
      var k2 := m - 1 - i;
      var turboShift := k1 - k2;
      var bcShift;
      var sym := SymbolOf(text[i + j]);
      if sym.None? {
        bcShift := i + 1;
      } else {
        bcShift := bmbc[sym.value] - m + 1 + i;
      }
      shift := Max(turboShift, bcShift);
      shift := Max(shift, bmgs[i]);
      if shift == bmgs[i] {
        k1' := Min(m - shift, k2);
      } else {
        if turboShift < bcShift {
          shift := Max(shift, k1 + 1);
        }
        k1' := 0;
      }
    }
  }

  /// The delimiters the engine searches for all have characters in the
  /// alphabet and a last pair that does not recur, so for them the search
  /// as written finds every occurrence.
  lemma SearchedTermsFoundExactly(term: string, text: string)
    requires term in [CommentTagBegin, CommentTagEnd, NoIndexTagBegin, NoIndexTagEnd,
                      NoIndexTagBeginAlternative, NoIndexTagEndAlternative,
                      ATagBegin, ATagEnd, ATagBeginUpper, ATagEndUpper]
    ensures |term| > 0 && SearchAsWritten(term, text) == Occurrences(term, text)
  {
    if term in [CommentTagBegin, CommentTagEnd, NoIndexTagBegin, NoIndexTagEnd, ATagBegin] {
      FirstTermsShaped(term);
    } else {
      LastTermsShaped(term);
    }
    SearchAsWrittenExact(term, text);
  }

  /// The comment, noindex and opening anchor delimiters meet the conditions
  /// of SearchAsWrittenExact.
  lemma FirstTermsShaped(term: string)
    requires term in [CommentTagBegin, CommentTagEnd, NoIndexTagBegin, NoIndexTagEnd, ATagBegin]
    ensures AllMapped(term) && UniqueTail2(term)
  {
    if term == CommentTagBegin {
      assert AllMapped(term) && UniqueTail2(term);
    } else if term == CommentTagEnd {
      assert AllMapped(term) && UniqueTail2(term);
    } else if term == NoIndexTagBegin {
      assert AllMapped(term) && UniqueTail2(term);
    } else if term == NoIndexTagEnd {
      assert AllMapped(term) && UniqueTail2(term);
    }
  }

  /// So do the alternative noindex comments and the remaining anchor
  /// delimiters.
  lemma LastTermsShaped(term: string)
    requires term in [NoIndexTagBeginAlternative, NoIndexTagEndAlternative, ATagEnd, ATagBeginUpper, ATagEndUpper]
    ensures AllMapped(term) && UniqueTail2(term)
  {
    if term == NoIndexTagBeginAlternative {
      assert AllMapped(term) && UniqueTail2(term);
    } else if term == NoIndexTagEndAlternative {
      assert AllMapped(term) && UniqueTail2(term);
    } else if term == ATagEnd {
      assert AllMapped(term) && UniqueTail2(term);
    }
  }
}
