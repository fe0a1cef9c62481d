/// The search loop of TurboBoyerMoore (Parsing/SearchEngine.cs) as a
/// function of its state, and what it finds: exactly the occurrences of the
/// pattern when every pattern character is in the alphabet and the memory
/// floor never fires, and only occurrences in any case.
module TurboSearch {
  import opened Wrappers
  import opened SymbolMap
  import opened ShiftSpec
  import opened ShiftTables

  // ------------------------------------------------------------- reference

  /// Text position j + x holds pattern character x.
  predicate Agrees(p: string, t: string, j: int, x: int) {
    0 <= x < |p| && 0 <= j + x < |t| && t[j + x] == p[x]
  }

  /// The pattern occurs in the text at j.
  predicate MatchesAt(p: string, t: string, j: int) {
    0 <= j && j + |p| <= |t| && forall x :: 0 <= x < |p| ==> Agrees(p, t, j, x)
  }

  /// Strictly ascending.
  predicate Ascending(r: seq<int>) {
    forall a, b :: 0 <= a < b < |r| ==> r[a] < r[b]
  }

  /// The positions from j on where the pattern occurs, in ascending order:
  /// the naive search every position in turn.
  function OccurrencesFrom(p: string, t: string, j: int): seq<int>
    requires |p| > 0 && 0 <= j
    decreases |t| - j
  {
    if j > |t| - |p| then []
    else (if MatchesAt(p, t, j) then [j] else []) + OccurrencesFrom(p, t, j + 1)
  }

  /// OccurrencesFrom holds every occurrence from j on, nothing else, in
  /// ascending order.
  lemma {:induction false} OccurrencesFromMeaning(p: string, t: string, j: int)
    requires |p| > 0 && 0 <= j
    ensures var r := OccurrencesFrom(p, t, j);
      (forall k :: 0 <= k < |r| ==> j <= r[k] && MatchesAt(p, t, r[k]))
      && (forall x :: j <= x && MatchesAt(p, t, x) ==> x in r)
      && Ascending(r)
    decreases |t| - j
  {
    if j <= |t| - |p| {
      OccurrencesFromMeaning(p, t, j + 1);
    }
  }

  /// Every occurrence of the pattern, in ascending order.
  function Occurrences(p: string, t: string): seq<int>
    requires |p| > 0
  {
    OccurrencesFrom(p, t, 0)
  }

  /// Positions without an occurrence can be skipped.
  lemma {:induction false} SkipNonMatches(p: string, t: string, a: int, b: int)
    requires |p| > 0 && 0 <= a <= b
    requires forall x :: a <= x < b ==> !MatchesAt(p, t, x)
    ensures OccurrencesFrom(p, t, a) == OccurrencesFrom(p, t, b)
    decreases b - a
  {
    if a < b && a <= |t| - |p| {
      SkipNonMatches(p, t, a + 1, b);
    }
  }

  // ----------------------------------------------------------- search state

  /// The variables of the outer loop: window j, the last shift and the
  /// length k1 of the remembered factor.
  predicate Shape(p: string, j: int, k1: int, shift: int) {
    |p| > 0 && 0 <= j && 1 <= shift <= |p| && 0 <= k1 <= |p| - shift
  }

  /// What the memory means: the k1 characters ending just before m - shift
  /// were matched by the previous window, and the pattern repeats itself
  /// `shift` places further right there.
  predicate Remembered(p: string, t: string, j: int, k1: int, shift: int) {
    k1 > 0 ==>
      j + |p| - shift <= |t|
      && forall q :: |p| - shift - k1 <= q < |p| - shift ==> Agrees(p, t, j, q) && Mirrors(p, shift, q)
  }

  /// Every pattern character is in the alphabet.
  predicate AllMapped(p: string) {
    forall k :: 0 <= k < |p| ==> SymbolOf(p[k]).Some?
  }

  /// The last two pattern characters do not occur together anywhere else
  /// in the pattern (trivially so for patterns of length 1 or 2).
  predicate UniqueTail2(p: string) {
    forall x :: 0 <= x < |p| - 2 ==> !TailPairAt(p, x)
  }

  /// The last two pattern characters occur at x and x + 1.
  predicate TailPairAt(p: string, x: int) {
    0 <= x && x + 1 < |p| && p[x] == p[|p| - 2] && p[x + 1] == p[|p| - 1]
  }

  function Max(a: int, b: int): int { if a < b then b else a }
  function Min(a: int, b: int): int { if a < b then a else b }

  // ----------------------------------------------------------------- tables

  /// The two precomputed tables the search loop reads: the good-suffix shift
  /// per pattern position and the bad-character entry per alphabet slot.
  datatype Tables = Tables(goodSuffix: seq<int>, badChar: seq<int>)

  /// Tables of the right sizes whose shifts lie in 1..m.
  predicate Bounded(p: string, tb: Tables) {
    |tb.goodSuffix| == |p| && |tb.badChar| == AlphabetSize
    && (forall i :: 0 <= i < |p| ==> 1 <= tb.goodSuffix[i] <= |p|)
    && (forall sym :: 0 <= sym < AlphabetSize ==> 1 <= tb.badChar[sym] <= |p|)
  }

  /// The tables of pattern p.
  predicate IsTablesOf(p: string, tb: Tables)
    requires |p| > 0
  {
    Bounded(p, tb)
    && (forall i :: 0 <= i < |p| ==> tb.goodSuffix[i] == GoodSuffixShift(p, i))
    && (forall sym :: 0 <= sym < AlphabetSize ==> tb.badChar[sym] == BadCharEntry(p, sym))
  }

  /// The preprocessing phase: both tables of p.
  function TablesFor(p: string): (tb: Tables)
    requires |p| > 0
    ensures IsTablesOf(p, tb)
  {
    Tables(seq(|p|, i requires 0 <= i < |p| => GoodSuffixShift(p, i)),
           seq(AlphabetSize, sym requires 0 <= sym < AlphabetSize => BadCharEntry(p, sym)))
  }

  // ------------------------------------------------------------ one window

  /// The comparison loop from position i leftwards: it stops at the first
  /// mismatch, or at -1 after a full match, jumping over the remembered
  /// factor when it reaches it.
  function Scan(p: string, t: string, j: int, k1: int, shift: int, i: int): (r: int)
    requires Shape(p, j, k1, shift) && j + |p| <= |t| && -1 <= i < |p|
    ensures -1 <= r <= i
    decreases i + 1
  {
    if i >= 0 && p[i] == t[i + j] then
      var i' := i - 1;
      Scan(p, t, j, k1, shift, if k1 != 0 && i' == |p| - 1 - shift then i' - k1 else i')
    else
      i
  }

  /// The bad-character shift for text character c at pattern position i.
  function BadCharShift(p: string, tb: Tables, c: char, i: int): (s: int)
    requires |p| > 0 && Bounded(p, tb)
    ensures s <= i + 1
  {
    var sym := SymbolOf(c);
    if sym.None? then i + 1 else tb.badChar[sym.value] - |p| + 1 + i
  }

  /// The next shift and memory after the window at j stopped at i (i < 0
  /// for a full match). `withFloor` keeps the rule that raises the shift to
  /// k1 + 1 when the bad-character shift beats the turbo shift.
  function Next(p: string, t: string, tb: Tables, j: int, k1: int, i: int, withFloor: bool): (next: (int, int))
    requires |p| > 0 && Bounded(p, tb) && 0 <= j && j + |p| <= |t| && -1 <= i < |p| && 0 <= k1 < |p|
    ensures 1 <= next.0 <= |p| && 0 <= next.1 <= |p| - next.0
  {
    var m := |p|;
    if i < 0 then
      (tb.goodSuffix[0], m - tb.goodSuffix[0])
    else
      var k2 := m - 1 - i;
      var turboShift := k1 - k2;
      var bcShift := BadCharShift(p, tb, t[i + j], i);
      var gs := tb.goodSuffix[i];
      var shift := Max(Max(turboShift, bcShift), gs);
      if shift == gs then
        (shift, Min(m - shift, k2))
      else
        (if withFloor && turboShift < bcShift then Max(shift, k1 + 1) else shift, 0)
  }

  /// The positions the search reports from window j on.
  function Run(p: string, t: string, tb: Tables, j: int, k1: int, shift: int, withFloor: bool): seq<int>
    requires Shape(p, j, k1, shift) && Bounded(p, tb)
    decreases |t| - j
  {
    if j > |t| - |p| then []
    else
      var i := Scan(p, t, j, k1, shift, |p| - 1);
      var next := Next(p, t, tb, j, k1, i, withFloor);
      (if i < 0 then [j] else []) + Run(p, t, tb, j + next.0, next.1, next.0, withFloor)
  }

  /// The search as the source writes it.
  function SearchAsWritten(p: string, t: string): seq<int>
    requires |p| > 0
  {
    if |p| <= |t| then Run(p, t, TablesFor(p), 0, 0, |p|, true) else []
  }

  /// The search without the k1 + 1 floor.
  function SearchCorrected(p: string, t: string): seq<int>
    requires |p| > 0
  {
    if |p| <= |t| then Run(p, t, TablesFor(p), 0, 0, |p|, false) else []
  }

  // ------------------------------------------------------- the comparisons

  /// What a scan establishes: everything right of the stopping point agrees
  /// with the text, the stopping point itself does not, and it never lies
  /// inside the remembered factor.
  lemma {:induction false} ScanFacts(p: string, t: string, j: int, k1: int, shift: int, i: int)
    requires Shape(p, j, k1, shift) && j + |p| <= |t| && -1 <= i < |p|
    requires Remembered(p, t, j, k1, shift)
    requires forall x :: i < x < |p| ==> Agrees(p, t, j, x)
    requires k1 > 0 ==> i >= |p| - shift || i <= |p| - 1 - shift - k1
    ensures var r := Scan(p, t, j, k1, shift, i);
      (forall x :: r < x < |p| ==> Agrees(p, t, j, x))
      && (r >= 0 ==> !Agrees(p, t, j, r))
      && (k1 > 0 ==> r >= |p| - shift || r <= |p| - 1 - shift - k1)
    decreases i + 1
  {
    if i >= 0 && p[i] == t[i + j] {
      var i' := i - 1;
      if k1 != 0 && i' == |p| - 1 - shift {
        ScanFacts(p, t, j, k1, shift, i' - k1);
      } else {
        ScanFacts(p, t, j, k1, shift, i');
      }
    }
  }

  /// The scan reports a full match exactly when the pattern occurs.
  lemma ScanFindsMatch(p: string, t: string, j: int, k1: int, shift: int)
    requires Shape(p, j, k1, shift) && j + |p| <= |t|
    requires Remembered(p, t, j, k1, shift)
    ensures var r := Scan(p, t, j, k1, shift, |p| - 1);
      (r < 0 <==> MatchesAt(p, t, j))
      && (forall x :: r < x < |p| ==> Agrees(p, t, j, x))
      && (r >= 0 ==> !Agrees(p, t, j, r))
      && (k1 > 0 ==> r >= |p| - shift || r <= |p| - 1 - shift - k1)
  {
    ScanFacts(p, t, j, k1, shift, |p| - 1);
  }

  // ---------------------------------------------------------------- memory

  /// The memory handed to the next window is correct, for every pattern.
  lemma NextRemembered(p: string, t: string, tb: Tables, j: int, k1: int, shift: int, withFloor: bool, i: int, next: (int, int))
    requires Shape(p, j, k1, shift) && j + |p| <= |t| && IsTablesOf(p, tb)
    requires Remembered(p, t, j, k1, shift)
    requires i == Scan(p, t, j, k1, shift, |p| - 1) && next == Next(p, t, tb, j, k1, i, withFloor)
    ensures Remembered(p, t, j + next.0, next.1, next.0)
  {
    var m := |p|;
    ScanFindsMatch(p, t, j, k1, shift);
    var s, k := next.0, next.1;
    if k > 0 {
      var lo := if i < 0 then 0 else i;
      GoodSuffixShiftLeast(p, lo);
      assert s == GoodSuffixShift(p, lo) && m - k > lo by {
        if i >= 0 {
          assert s == GoodSuffixShift(p, i) && k <= m - 1 - i;
        }
      }
      var j' := j + s;
      forall q | m - s - k <= q < m - s ensures Agrees(p, t, j', q) && Mirrors(p, s, q) {
        assert Agrees(p, t, j, q + s);
        assert ShiftAgrees(p, s, q + s);
      }
    }
  }

  /// Under UniqueTail2 the memory never exceeds one character, so the
  /// k1 + 1 floor never raises a shift.
  lemma NextSmallMemory(p: string, t: string, tb: Tables, j: int, k1: int, shift: int, withFloor: bool, i: int, next: (int, int))
    requires Shape(p, j, k1, shift) && j + |p| <= |t| && IsTablesOf(p, tb)
    requires Remembered(p, t, j, k1, shift) && UniqueTail2(p)
    requires i == Scan(p, t, j, k1, shift, |p| - 1) && next == Next(p, t, tb, j, k1, i, withFloor)
    ensures next.1 <= 1
  {
    var m := |p|;
    ScanFindsMatch(p, t, j, k1, shift);
    var s, k := next.0, next.1;
    if k > 0 {
      var lo := if i < 0 then 0 else i;
      GoodSuffixShiftLeast(p, lo);
      assert s == GoodSuffixShift(p, lo) && k <= m - s && (i >= 0 ==> k <= m - 1 - i) by {
        if i >= 0 {
          assert s == GoodSuffixShift(p, i);
        }
      }
      if lo <= m - 3 {
        TailShiftsFar(p, lo, s);
      }
    }
  }

  /// Under UniqueTail2 a valid shift for a mismatch left of the last two
  /// positions moves the pattern at least m - 1 places.
  lemma TailShiftsFar(p: string, i: int, s: int)
    requires 0 <= i <= |p| - 3 && ValidShift(p, i, s) && UniqueTail2(p)
    ensures s >= |p| - 1
  {
    var m := |p|;
    assert s <= m - 2 ==> ShiftAgrees(p, s, m - 1) && ShiftAgrees(p, s, m - 2) && TailPairAt(p, m - 2 - s);
  }

  // ---------------------------------------------------------------- safety

  /// An occurrence s places to the right is consistent with what the
  /// window read, so s is a valid shift.
  lemma OccurrenceIsValidShift(p: string, t: string, j: int, i: int, s: int)
    requires |p| > 0 && 0 <= i < |p| && 1 <= s <= |p| && 0 <= j
    requires forall x :: i < x < |p| ==> Agrees(p, t, j, x)
    requires s <= i ==> !Agrees(p, t, j, i)
    requires MatchesAt(p, t, j + s)
    ensures ValidShift(p, i, s)
  {
    forall k | i < k < |p| && s <= k ensures ShiftAgrees(p, s, k) {
      assert Agrees(p, t, j + s, k - s) && Agrees(p, t, j, k);
    }
    if s <= i {
      assert Agrees(p, t, j + s, i - s);
    }
  }

  /// No occurrence lies closer than the good-suffix shift.
  lemma GoodSuffixSafe(p: string, t: string, j: int, i: int, s: int)
    requires |p| > 0 && 0 <= i < |p| && 1 <= s < GoodSuffixShift(p, i) && 0 <= j
    requires forall x :: i < x < |p| ==> Agrees(p, t, j, x)
    requires s <= i ==> !Agrees(p, t, j, i)
    ensures !MatchesAt(p, t, j + s)
  {
    GoodSuffixShiftLeast(p, i);
    if MatchesAt(p, t, j + s) {
      OccurrenceIsValidShift(p, t, j, i, s);
    }
  }

  /// No occurrence lies closer than the bad-character shift, when every
  /// pattern character is in the alphabet.
  lemma BadCharSafe(p: string, t: string, tb: Tables, j: int, i: int, s: int)
    requires |p| > 0 && 0 <= i < |p| && 0 <= j && j + |p| <= |t| && AllMapped(p) && IsTablesOf(p, tb)
    requires !Agrees(p, t, j, i)
    requires 1 <= s < BadCharShift(p, tb, t[i + j], i)
    ensures !MatchesAt(p, t, j + s)
  {
    var c := t[i + j];
    if SymbolOf(c).Some? {
      BadCharEntryMeaning(p, SymbolOf(c).value);
    }
    assert MatchesAt(p, t, j + s) ==> Agrees(p, t, j + s, i - s);
  }

  /// No occurrence lies closer than the turbo shift: the remembered factor
  /// and the matched suffix would put two different characters at one text
  /// position.
  lemma TurboSafe(p: string, t: string, j: int, k1: int, shift: int, i: int, s: int)
    requires Shape(p, j, k1, shift) && j + |p| <= |t| && Remembered(p, t, j, k1, shift)
    requires 0 <= i < |p| && !Agrees(p, t, j, i)
    requires k1 > 0 ==> i >= |p| - shift || i <= |p| - 1 - shift - k1
    requires 1 <= s < k1 - (|p| - 1 - i)
    ensures !MatchesAt(p, t, j + s)
  {
    var m := |p|;
    var q0 := i - shift;
    var q1 := i - s - shift;
    assert Agrees(p, t, j, q0) && Mirrors(p, shift, q0);
    assert Agrees(p, t, j, q1) && Mirrors(p, shift, q1);
    assert MatchesAt(p, t, j + s) ==> Agrees(p, t, j + s, q1) && Agrees(p, t, j + s, i - s);
  }

  // ------------------------------------------------------------- theorems

  /// No occurrence lies strictly between a window and the next one, when
  /// every pattern character is in the alphabet and the floor, if kept,
  /// cannot fire.
  lemma NoOccurrenceSkipped(p: string, t: string, tb: Tables, j: int, k1: int, shift: int, withFloor: bool, i: int, next: (int, int))
    requires Shape(p, j, k1, shift) && j + |p| <= |t| && Remembered(p, t, j, k1, shift) && IsTablesOf(p, tb)
    requires AllMapped(p) && (withFloor ==> UniqueTail2(p) && k1 <= 1)
    requires i == Scan(p, t, j, k1, shift, |p| - 1) && next == Next(p, t, tb, j, k1, i, withFloor)
    ensures forall y :: j < y < j + next.0 ==> !MatchesAt(p, t, y)
  {
    var m := |p|;
    ScanFindsMatch(p, t, j, k1, shift);
    if i < 0 {
      forall y | j < y < j + next.0 ensures !MatchesAt(p, t, y) {
        GoodSuffixSafe(p, t, j, 0, y - j);
      }
    } else {
      var k2 := m - 1 - i;
      var bc := BadCharShift(p, tb, t[i + j], i);
      var gs := GoodSuffixShift(p, i);
      assert next.0 <= Max(Max(k1 - k2, bc), gs);
      forall y | j < y < j + next.0 ensures !MatchesAt(p, t, y) {
        var s := y - j;
        if s < gs {
          GoodSuffixSafe(p, t, j, i, s);
        } else if s < bc {
          BadCharSafe(p, t, tb, j, i, s);
        } else {
          TurboSafe(p, t, j, k1, shift, i, s);
        }
      }
    }
  }

  /// One window of the search, as the exactness proof needs it: it reports
  /// j exactly when the pattern occurs there, skips no occurrence, and hands
  /// on a correct (and, with the floor, short) memory.
  lemma ExactStep(p: string, t: string, tb: Tables, j: int, k1: int, shift: int, withFloor: bool, i: int, next: (int, int))
    requires Shape(p, j, k1, shift) && j + |p| <= |t| && Remembered(p, t, j, k1, shift) && IsTablesOf(p, tb)
    requires AllMapped(p) && (withFloor ==> UniqueTail2(p) && k1 <= 1)
    requires i == Scan(p, t, j, k1, shift, |p| - 1) && next == Next(p, t, tb, j, k1, i, withFloor)
    ensures i < 0 <==> MatchesAt(p, t, j)
    ensures OccurrencesFrom(p, t, j + 1) == OccurrencesFrom(p, t, j + next.0)
    ensures Remembered(p, t, j + next.0, next.1, next.0)
    ensures withFloor ==> next.1 <= 1
  {
    ScanFindsMatch(p, t, j, k1, shift);
    NoOccurrenceSkipped(p, t, tb, j, k1, shift, withFloor, i, next);
    SkipNonMatches(p, t, j + 1, j + next.0);
    NextRemembered(p, t, tb, j, k1, shift, withFloor, i, next);
    if withFloor {
      NextSmallMemory(p, t, tb, j, k1, shift, withFloor, i, next);
    }
  }

  /// From any window whose memory is right, the search reports exactly the
  /// occurrences from that window on.
  lemma {:induction false} RunExact(p: string, t: string, tb: Tables, j: int, k1: int, shift: int, withFloor: bool)
    requires Shape(p, j, k1, shift) && Remembered(p, t, j, k1, shift) && IsTablesOf(p, tb)
    requires AllMapped(p) && (withFloor ==> UniqueTail2(p) && k1 <= 1)
    ensures Run(p, t, tb, j, k1, shift, withFloor) == OccurrencesFrom(p, t, j)
    decreases |t| - j
  {
    if j <= |t| - |p| {
      var i := Scan(p, t, j, k1, shift, |p| - 1);
      var next := Next(p, t, tb, j, k1, i, withFloor);
      RunStep(p, t, tb, j, k1, shift, withFloor, i, next);
      ExactStep(p, t, tb, j, k1, shift, withFloor, i, next);
      RunExact(p, t, tb, j + next.0, next.1, next.0, withFloor);
    }
  }

  /// From any window whose memory is right, every reported position is an
  /// occurrence at or after the window, in ascending order, for every
  /// pattern.
  lemma {:induction false} RunSound(p: string, t: string, tb: Tables, j: int, k1: int, shift: int, withFloor: bool)
    requires Shape(p, j, k1, shift) && Remembered(p, t, j, k1, shift) && IsTablesOf(p, tb)
    ensures var r := Run(p, t, tb, j, k1, shift, withFloor);
      (forall k :: 0 <= k < |r| ==> j <= r[k] && MatchesAt(p, t, r[k])) && Ascending(r)
    decreases |t| - j
  {
    if j <= |t| - |p| {
      var i := Scan(p, t, j, k1, shift, |p| - 1);
      var next := Next(p, t, tb, j, k1, i, withFloor);
      RunStep(p, t, tb, j, k1, shift, withFloor, i, next);
      ScanFindsMatch(p, t, j, k1, shift);
      NextRemembered(p, t, tb, j, k1, shift, withFloor, i, next);
      RunSound(p, t, tb, j + next.0, next.1, next.0, withFloor);
    }
  }

  /// Without the floor the search finds every occurrence of a pattern whose
  /// characters are all in the alphabet, and nothing else.
  lemma SearchCorrectedExact(p: string, t: string)
    requires |p| > 0 && AllMapped(p)
    ensures SearchCorrected(p, t) == Occurrences(p, t)
  {
    RunExact(p, t, TablesFor(p), 0, 0, |p|, false);
  }

  /// As written, the search is exact as long as the last two pattern
  /// characters do not recur together, which keeps the floor inert.
  lemma SearchAsWrittenExact(p: string, t: string)
    requires |p| > 0 && AllMapped(p) && UniqueTail2(p)
    ensures SearchAsWritten(p, t) == Occurrences(p, t)
  {
    RunExact(p, t, TablesFor(p), 0, 0, |p|, true);
  }

  /// One window of the search: report j on a full match, then continue
  /// from the next window.
  lemma RunStep(p: string, t: string, tb: Tables, j: int, k1: int, shift: int, withFloor: bool, i: int, next: (int, int))
    requires Shape(p, j, k1, shift) && j <= |t| - |p| && Bounded(p, tb)
    requires i == Scan(p, t, j, k1, shift, |p| - 1) && next == Next(p, t, tb, j, k1, i, withFloor)
    ensures Shape(p, j + next.0, next.1, next.0)
    ensures Run(p, t, tb, j, k1, shift, withFloor) == (if i < 0 then [j] else []) + Run(p, t, tb, j + next.0, next.1, next.0, withFloor)
  {
  }

  /// As written, every reported position is an occurrence, in ascending
  /// order, whatever the pattern.
  lemma SearchAsWrittenSound(p: string, t: string)
    requires |p| > 0
    ensures var r := SearchAsWritten(p, t);
      (forall k :: 0 <= k < |r| ==> MatchesAt(p, t, r[k])) && Ascending(r)
  {
    RunSound(p, t, TablesFor(p), 0, 0, |p|, true);
  }
}
