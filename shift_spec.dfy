/// What the three Boyer–Moore tables of Parsing/SearchEngine.cs mean, stated
/// on the pattern alone: the suffix lengths, the shortest safe good-suffix
/// shifts and the bad-character distances.
module ShiftSpec {
  import opened Wrappers
  import opened SymbolMap

  // ---------------------------------------------------------------- suffixes

  /// The character `r` places before position `k` equals the character `r`
  /// places before the end of the pattern.
  predicate SuffixAgrees(p: string, k: int, r: int) {
    0 <= k - r && k < |p| && 0 <= r && p[k - r] == p[|p| - 1 - r]
  }

  /// The `len` characters ending at `k` equal the last `len` characters of
  /// the pattern.
  predicate MatchedSuffix(p: string, k: int, len: int)
    requires 0 <= k < |p| && 0 <= len <= k + 1
  {
    forall r :: 0 <= r < len ==> SuffixAgrees(p, k, r)
  }

  /// The longest common suffix of p[0..k] and p, counting on from `r`
  /// characters already known to match.
  function SuffixFrom(p: string, k: int, r: int): (len: int)
    requires 0 <= k < |p| && 0 <= r <= k + 1 && MatchedSuffix(p, k, r)
    ensures r <= len <= k + 1 && MatchedSuffix(p, k, len)
    ensures len <= k ==> !SuffixAgrees(p, k, len)
    decreases k + 1 - r
  {
    if SuffixAgrees(p, k, r) then SuffixFrom(p, k, r + 1) else r
  }

  /// The length of the longest common suffix of p[0..k] and the whole
  /// pattern: it matches, and the character before it does not.
  function SuffixLength(p: string, k: int): (len: int)
    requires 0 <= k < |p|
    ensures 0 <= len <= k + 1 && MatchedSuffix(p, k, len)
    ensures len <= k ==> !SuffixAgrees(p, k, len)
  {
    SuffixFrom(p, k, 0)
  }

  /// A matching length that cannot be extended is the suffix length.
  lemma SuffixLengthIs(p: string, k: int, len: int)
    requires 0 <= k < |p| && 0 <= len <= k + 1 && MatchedSuffix(p, k, len)
    requires len <= k ==> !SuffixAgrees(p, k, len)
    ensures SuffixLength(p, k) == len
  {
    var s := SuffixLength(p, k);
    var atS, atLen := SuffixAgrees(p, k, s), SuffixAgrees(p, k, len);
  }

  /// The whole pattern is its own longest suffix.
  lemma SuffixLengthOfLast(p: string)
    requires |p| > 0
    ensures SuffixLength(p, |p| - 1) == |p|
  {
    SuffixLengthIs(p, |p| - 1, |p|);
  }

  // ------------------------------------------------------- good-suffix shifts

  /// The pattern shifted right by `s` agrees with itself at position `k`.
  predicate ShiftAgrees(p: string, s: int, k: int) {
    0 <= s <= k < |p| && p[k - s] == p[k]
  }

  /// Shifting the pattern by `s` after it matched the text right of `i` and
  /// mismatched at `i` cannot skip an occurrence that is consistent with what
  /// was read: the matched part agrees with the shifted pattern, and the
  /// shifted pattern does not put the rejected character back at `i`.
  predicate ValidShift(p: string, i: int, s: int)
    requires 0 <= i < |p|
  {
    1 <= s <= |p|
    && (forall k :: i < k < |p| && s <= k ==> ShiftAgrees(p, s, k))
    && (s <= i ==> p[i - s] != p[i])
  }

  /// The shortest valid shift not below `s`.
  function MinShiftFrom(p: string, i: int, s: int): (r: int)
    requires 0 <= i < |p| && 1 <= s <= |p|
    ensures s <= r <= |p|
    decreases |p| - s
  {
    if s == |p| || ValidShift(p, i, s) then s else MinShiftFrom(p, i, s + 1)
  }

  /// MinShiftFrom finds a valid shift, and none is skipped on the way.
  lemma {:induction false} MinShiftFromLeast(p: string, i: int, s: int)
    requires 0 <= i < |p| && 1 <= s <= |p|
    ensures ValidShift(p, i, MinShiftFrom(p, i, s))
    ensures forall t :: s <= t < MinShiftFrom(p, i, s) ==> !ValidShift(p, i, t)
    decreases |p| - s
  {
    if s < |p| && !ValidShift(p, i, s) {
      MinShiftFromLeast(p, i, s + 1);
    }
  }

  /// The good-suffix shift for a mismatch at `i`: the shortest valid shift
  /// (GoodSuffixShiftLeast).
  function GoodSuffixShift(p: string, i: int): (s: int)
    requires 0 <= i < |p|
    ensures 1 <= s <= |p|
  {
    MinShiftFrom(p, i, 1)
  }

  /// The good-suffix shift is valid, and no shorter shift is.
  lemma GoodSuffixShiftLeast(p: string, i: int)
    requires 0 <= i < |p|
    ensures ValidShift(p, i, GoodSuffixShift(p, i))
    ensures forall t :: 1 <= t < GoodSuffixShift(p, i) ==> !ValidShift(p, i, t)
  {
    MinShiftFromLeast(p, i, 1);
  }

  /// A shift that reaches past the mismatch is valid when the pattern's
  /// prefix of length m - s is also its suffix.
  predicate IsBorder(p: string, s: int) {
    1 <= s < |p| && SuffixLength(p, |p| - 1 - s) == |p| - s
  }

  /// The first border shift from `s` on, or m when there is none.
  function BorderFrom(p: string, s: int): (r: int)
    requires 1 <= s <= |p|
    ensures s <= r <= |p|
    ensures r < |p| ==> IsBorder(p, r)
    ensures forall t :: s <= t < r ==> !IsBorder(p, t)
    decreases |p| - s
  {
    if s == |p| || IsBorder(p, s) then s else BorderFrom(p, s + 1)
  }

  /// The last position q below `n` whose suffix length puts it at
  /// m - 1 - suff[q] == x, or -1.
  function LastSuffixHit(p: string, x: int, n: int): (q: int)
    requires 0 <= n <= |p|
    ensures -1 <= q < n
    ensures q >= 0 ==> |p| - 1 - SuffixLength(p, q) == x
    ensures forall r :: q < r < n ==> |p| - 1 - SuffixLength(p, r) != x
  {
    if n == 0 then -1
    else if |p| - 1 - SuffixLength(p, n - 1) == x then n - 1
    else LastSuffixHit(p, x, n - 1)
  }

  /// A shift that keeps position `i` inside the pattern is valid exactly when
  /// the suffix ending at m - 1 - s is as long as the matched part.
  lemma ValidShiftInside(p: string, i: int, s: int)
    requires 0 <= i < |p| && 1 <= s <= i
    ensures ValidShift(p, i, s) <==> SuffixLength(p, |p| - 1 - s) == |p| - 1 - i
  {
    var m := |p|;
    var q := m - 1 - s;
    var len := m - 1 - i;
    if ValidShift(p, i, s) {
      forall r | 0 <= r < len ensures SuffixAgrees(p, q, r) {
        assert ShiftAgrees(p, s, m - 1 - r);
      }
      SuffixLengthIs(p, q, len);
    }
    if SuffixLength(p, q) == len {
      forall k | i < k < m && s <= k ensures ShiftAgrees(p, s, k) {
        assert SuffixAgrees(p, q, m - 1 - k);
      }
    }
  }

  /// A shift that moves the pattern past position `i` is valid exactly when
  /// it is m or a border.
  lemma ValidShiftPast(p: string, i: int, s: int)
    requires 0 <= i < |p| && i < s <= |p|
    ensures ValidShift(p, i, s) <==> s == |p| || IsBorder(p, s)
  {
    var m := |p|;
    if s < m {
      var q := m - 1 - s;
      if ValidShift(p, i, s) {
        forall r | 0 <= r < q + 1 ensures SuffixAgrees(p, q, r) {
          assert ShiftAgrees(p, s, m - 1 - r);
        }
        SuffixLengthIs(p, q, q + 1);
      }
      if IsBorder(p, s) {
        forall k | i < k < m && s <= k ensures ShiftAgrees(p, s, k) {
          assert SuffixAgrees(p, q, m - 1 - k);
        }
      }
    }
  }

  /// The value the good-suffix table builder leaves at `x`: the shift of the
  /// last suffix hit on x when there is one, else the first border past x.
  function TableValue(p: string, x: int): int
    requires 0 <= x < |p|
  {
    var q := LastSuffixHit(p, x, |p| - 1);
    if q >= 0 then |p| - 1 - q else BorderFrom(p, x + 1)
  }

  /// The builder's value is the shortest valid shift.
  lemma {:induction false} GoodSuffixShiftIsTableValue(p: string, x: int)
    requires 0 <= x < |p|
    ensures GoodSuffixShift(p, x) == TableValue(p, x)
  {
    var m := |p|;
    var q := LastSuffixHit(p, x, m - 1);
    var v := TableValue(p, x);
    assert 1 <= v <= m && ValidShift(p, x, v) by {
      if q >= 0 {
        HitIsValid(p, x, q);
      } else {
        var b := BorderFrom(p, x + 1);
        ValidShiftPast(p, x, b);
      }
    }
    forall t | 1 <= t < v ensures !ValidShift(p, x, t) {
      NoValidShiftBelow(p, x, t);
    }
    GoodSuffixShiftLeast(p, x);
    var g := GoodSuffixShift(p, x);
    assert g <= v;
  }

  /// A suffix hit on x gives a valid shift for x.
  lemma HitIsValid(p: string, x: int, q: int)
    requires 0 <= x < |p| && 0 <= q < |p| - 1
    requires |p| - 1 - SuffixLength(p, q) == x
    ensures ValidShift(p, x, |p| - 1 - q)
  {
    var m := |p|;
    var s := m - 1 - q;
    if s <= x {
      ValidShiftInside(p, x, s);
    } else {
      assert SuffixLength(p, q) == q + 1;
      assert IsBorder(p, s);
      ValidShiftPast(p, x, s);
    }
  }

  /// No shift below the builder's value is valid.
  lemma NoValidShiftBelow(p: string, x: int, t: int)
    requires 0 <= x < |p| && 1 <= t < TableValue(p, x)
    ensures !ValidShift(p, x, t)
  {
    var m := |p|;
    var q := LastSuffixHit(p, x, m - 1);
    if t <= x {
      ValidShiftInside(p, x, t);
      assert m - 1 - t > q;
    } else {
      ValidShiftPast(p, x, t);
    }
  }

  // ------------------------------------------------------ bad-character table

  /// The last position below `end` holding the character of slot `sym`,
  /// or -1 (LastIndexBeforeMeaning).
  function LastIndexBefore(p: string, sym: int, end: int): (r: int)
    requires 0 <= end <= |p|
    ensures -1 <= r < end
  {
    if end == 0 then -1
    else if SymbolOf(p[end - 1]) == Some(sym) then end - 1
    else LastIndexBefore(p, sym, end - 1)
  }

  /// LastIndexBefore finds the character, and it does not occur after.
  lemma {:induction false} LastIndexBeforeMeaning(p: string, sym: int, end: int)
    requires 0 <= end <= |p|
    ensures var r := LastIndexBefore(p, sym, end);
      (r >= 0 ==> SymbolOf(p[r]) == Some(sym))
      && forall q :: r < q < end ==> SymbolOf(p[q]) != Some(sym)
  {
    if end > 0 && SymbolOf(p[end - 1]) != Some(sym) {
      LastIndexBeforeMeaning(p, sym, end - 1);
    }
  }

  /// The bad-character entry of slot `sym`: m when its character does not
  /// occur among positions 0..m-2, else m - 1 - (its last position there)
  /// (BadCharEntryMeaning).
  function BadCharEntry(p: string, sym: int): (e: int)
    requires |p| > 0
    ensures 1 <= e <= |p|
  {
    |p| - 1 - LastIndexBefore(p, sym, |p| - 1)
  }

  /// The bad-character entry is the distance from the last occurrence of the
  /// character among positions 0..m-2 to the end, or m when there is none.
  lemma BadCharEntryMeaning(p: string, sym: int)
    requires |p| > 0
    ensures var e := BadCharEntry(p, sym);
      (e == |p| <==> forall q :: 0 <= q < |p| - 1 ==> SymbolOf(p[q]) != Some(sym))
      && (e < |p| ==> SymbolOf(p[|p| - 1 - e]) == Some(sym))
      && (forall q :: |p| - 1 - e < q < |p| - 1 ==> SymbolOf(p[q]) != Some(sym))
  {
    LastIndexBeforeMeaning(p, sym, |p| - 1);
  }
}
