/// The k1 + 1 floor of TurboBoyerMoore (Parsing/SearchEngine.cs) can jump
/// over an occurrence. Pattern "cbcaccbc" occurs in "accbccbccbcaccbc" at 8;
/// the second window stops at 6 with turbo shift 2, bad-character shift 3
/// and good-suffix shift 2, the floor raises the shift from 3 to k1 + 1 = 4,
/// and the third window would start at 9, past the last possible one.
module TurboFinding {
  import opened Wrappers
  import opened SymbolMap
  import opened ShiftSpec
  import opened TurboSearch

  const Pattern: string := "cbcaccbc"
  const Text: string := "accbccbccbcaccbc"

  /// Every pattern character is in the alphabet.
  lemma PatternMapped()
    ensures AllMapped(Pattern)
  {
    forall k | 0 <= k < |Pattern| ensures SymbolOf(Pattern[k]).Some? {
      assert Pattern[k] in "abc";
    }
  }

  /// The good-suffix shifts the two windows use.
  lemma GoodSuffixShifts()
    ensures GoodSuffixShift(Pattern, 3) == 5
    ensures GoodSuffixShift(Pattern, 6) == 2
  {
    var p := Pattern;
    assert !ShiftAgrees(p, 1, 6) && !ShiftAgrees(p, 2, 6) && !ShiftAgrees(p, 3, 6) && !ShiftAgrees(p, 4, 7);
    assert !ValidShift(p, 3, 1) && !ValidShift(p, 3, 2) && !ValidShift(p, 3, 3) && !ValidShift(p, 3, 4);
    assert ShiftAgrees(p, 5, 5) && ShiftAgrees(p, 5, 6) && ShiftAgrees(p, 5, 7);
    assert ValidShift(p, 3, 5);
    assert !ShiftAgrees(p, 1, 7) && !ValidShift(p, 6, 1);
    assert ShiftAgrees(p, 2, 7) && ValidShift(p, 6, 2);
    GoodSuffixShiftLeast(p, 3);
    GoodSuffixShiftLeast(p, 6);
  }

  /// The bad-character entries of 'b' and 'a'.
  lemma BadCharEntries()
    ensures BadCharEntry(Pattern, SymbolOf('b').value) == 1
    ensures BadCharEntry(Pattern, SymbolOf('a').value) == 4
  {
    var p := Pattern;
    var b, a := SymbolOf('b').value, SymbolOf('a').value;
    assert LastIndexBefore(p, b, 7) == 6;
    assert SymbolOf(p[6]) != Some(a) && SymbolOf(p[5]) != Some(a) && SymbolOf(p[4]) != Some(a);
    assert LastIndexBefore(p, a, 4) == 3;
    assert LastIndexBefore(p, a, 7) == 3;
  }

  /// As written the search reports nothing, although the pattern occurs at
  /// 8; without the floor it reports the occurrence.
  lemma FloorSkipsOccurrence()
    ensures MatchesAt(Pattern, Text, 8)
    ensures SearchAsWritten(Pattern, Text) == []
    ensures SearchCorrected(Pattern, Text) == [8]
  {
    var p, t := Pattern, Text;
    var tb := TablesFor(p);
    forall x | 0 <= x < |p| ensures Agrees(p, t, 8, x) { }
    GoodSuffixShifts();
    BadCharEntries();
    assert tb.goodSuffix[3] == 5 && tb.goodSuffix[6] == 2;
    assert tb.badChar[SymbolOf('b').value] == 1 && tb.badChar[SymbolOf('a').value] == 4;
    assert Scan(p, t, 0, 0, 8, 3) == 3;
    assert Scan(p, t, 0, 0, 8, 7) == 3;
    assert Next(p, t, tb, 0, 0, 3, true) == (5, 3);
    assert Scan(p, t, 5, 3, 5, 6) == 6;
    assert Scan(p, t, 5, 3, 5, 7) == 6;
    assert Next(p, t, tb, 5, 3, 6, true) == (4, 0);
    assert Run(p, t, tb, 9, 0, 4, true) == [];
    assert Run(p, t, tb, 5, 3, 5, true) == [];
    assert Run(p, t, tb, 0, 0, 8, true) == [];
    PatternMapped();
    SearchCorrectedExact(p, t);
    assert MatchesAt(p, t, 8);
    OnlyOccurrence();
  }

  /// The pattern occurs nowhere else in the text.
  lemma OnlyOccurrence()
    ensures Occurrences(Pattern, Text) == [8]
  {
    var p, t := Pattern, Text;
    assert !Agrees(p, t, 0, 0) && !Agrees(p, t, 1, 1) && !Agrees(p, t, 2, 3) && !Agrees(p, t, 3, 0);
    assert !Agrees(p, t, 4, 1) && !Agrees(p, t, 5, 3) && !Agrees(p, t, 6, 0) && !Agrees(p, t, 7, 1);
    forall x | 0 <= x < |p| ensures Agrees(p, t, 8, x) { }
    SkipNonMatches(p, t, 0, 8);
    assert OccurrencesFrom(p, t, 9) == [];
  }
}
