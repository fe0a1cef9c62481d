/// The three table builders of Parsing/SearchEngine.cs, each proved to fill
/// its array with the values ShiftSpec defines. The source memoises the
/// tables per pattern; here each call builds them afresh.
module ShiftTables {
  import opened Wrappers
  import opened SymbolMap
  import opened ShiftSpec

  // ------------------------------------------------------------ suffix table

  /// The pattern agrees with itself `d` places further right at `q`.
  predicate Mirrors(p: string, d: int, q: int) {
    0 <= q && 0 <= d && q + d < |p| && p[q] == p[q + d]
  }

  /// The stretch (g, f] agrees with the stretch ending at the end of the
  /// pattern: the window the suffix-table builder remembers.
  predicate Window(p: string, g: int, f: int) {
    Mirrored(p, g, f, |p| - 1 - f)
  }

  /// Every position of (g, f] agrees with the position `d` further right.
  predicate Mirrored(p: string, g: int, f: int, d: int) {
    forall q :: g < q <= f ==> Mirrors(p, d, q)
  }

  /// Inside the window, the suffix length at i is the one at the mirrored
  /// position when that one ends before the window does.
  lemma SuffixCopy(p: string, i: int, f: int, g: int)
    requires -1 <= g < i < f <= |p| - 2 && Window(p, g, f)
    requires SuffixLength(p, i + |p| - 1 - f) < i - g
    ensures SuffixLength(p, i) == SuffixLength(p, i + |p| - 1 - f)
  {
    var m := |p|;
    var i' := i + m - 1 - f;
    var len := SuffixLength(p, i');
    forall r | 0 <= r < len ensures SuffixAgrees(p, i, r) {
      assert Mirrors(p, m - 1 - f, i - r);
      assert SuffixAgrees(p, i', r);
    }
    assert Mirrors(p, m - 1 - f, i - len);
    SuffixLengthIs(p, i, len);
  }

  /// Otherwise the part of the window right of g already agrees with the
  /// end of the pattern as seen from i.
  lemma WindowCopy(p: string, i: int, f: int, g: int)
    requires -1 <= g < i < f <= |p| - 2 && Window(p, g, f)
    requires SuffixLength(p, i + |p| - 1 - f) >= i - g
    ensures Mirrored(p, g, i, |p| - 1 - i)
  {
    var m := |p|;
    var i' := i + m - 1 - f;
    var d := m - 1 - i;
    forall q | g < q <= i ensures Mirrors(p, d, q) {
      assert Mirrors(p, m - 1 - f, q);
      assert SuffixAgrees(p, i', i - q);
    }
  }

  /// A comparison run that stopped at g gives the suffix length i - g.
  lemma SuffixFromRun(p: string, i: int, g: int)
    requires -1 <= g <= i && 0 <= i < |p|
    requires Mirrored(p, g, i, |p| - 1 - i)
    requires g >= 0 ==> p[g] != p[g + |p| - 1 - i]
    ensures SuffixLength(p, i) == i - g
  {
    var m := |p|;
    forall r | 0 <= r < i - g ensures SuffixAgrees(p, i, r) {
      assert Mirrors(p, m - 1 - i, i - r);
    }
    SuffixLengthIs(p, i, i - g);
  }

  /// `table` holds the suffix length of every position of p.
  predicate IsSuffixTable(p: string, table: array<int>)
    reads table
  {
    table.Length == |p| && forall k :: 0 <= k < |p| ==> table[k] == SuffixLength(p, k)
  }

  /// GetBoyerMooreSuffixTable: result[k] is the length of the longest common
  /// suffix of p[0..k] and p.
  method SuffixTable(p: string) returns (result: array<int>)
    requires |p| > 0
    ensures result.Length == |p|
    ensures forall k :: 0 <= k < |p| ==> result[k] == SuffixLength(p, k)
  {
    var m := |p|;
    result := new int[m];
    result[m - 1] := m;
    SuffixLengthOfLast(p);
    var k1, k2 := 0, m - 1;
    var i := m - 2;
    while i >= 0
      invariant -1 <= i <= m - 2
      invariant forall k :: i < k < m ==> result[k] == SuffixLength(p, k)
      invariant -1 <= k2 <= i + 1
      invariant k2 <= i ==> i < k1 <= m - 2 && Window(p, k2, k1)
    {
      if i > k2 && result[i + m - 1 - k1] < i - k2 {
        SuffixCopy(p, i, k1, k2);
        result[i] := result[i + m - 1 - k1];
      } else {
        if i > k2 {
          WindowCopy(p, i, k1, k2);
        }
        if i < k2 {
          k2 := i;
        }
        k1 := i;
        while k2 >= 0 && p[k2] == p[k2 + m - 1 - k1]
          invariant -1 <= k2 <= i
          invariant Mirrored(p, k2, i, m - 1 - i)
        {
          assert Mirrors(p, m - 1 - i, k2);
          k2 := k2 - 1;
        }
        SuffixFromRun(p, i, k2);
        result[i] := k1 - k2;
      }
      i := i - 1;
    }
  }

  // ------------------------------------------------------- good-shift table

  /// GetBoyerMooreGoodShiftTable: result[i] is the shortest valid shift for a
  /// mismatch at i.
  method GoodShiftTable(p: string) returns (result: array<int>)
    requires |p| > 0
    ensures result.Length == |p|
    ensures forall i :: 0 <= i < |p| ==> result[i] == GoodSuffixShift(p, i)
  {
    var m := |p|;
    var suffix := SuffixTable(p);
    result := new int[m];

    assert IsSuffixTable(p, suffix);
    for i := 0 to m
      invariant IsSuffixTable(p, suffix)
      invariant forall x :: 0 <= x < i ==> result[x] == m
    {
      result[i] := m;
    }

    ApplyBorders(p, suffix, result);
    ApplySuffixHits(p, suffix, result);
    forall x | 0 <= x < m ensures result[x] == GoodSuffixShift(p, x) {
      GoodSuffixShiftIsTableValue(p, x);
    }
  }

  /// The second loop of GetBoyerMooreGoodShiftTable: each border shift,
  /// smallest first, fills the slots below it that no smaller border has
  /// filled.
  method ApplyBorders(p: string, suffix: array<int>, result: array<int>)
    requires |p| > 0 && IsSuffixTable(p, suffix) && result.Length == |p| && result != suffix
    requires forall x :: 0 <= x < |p| ==> result[x] == |p|
    modifies result
    ensures forall x :: 0 <= x < |p| ==> result[x] == BorderFrom(p, x + 1)
  {
    var m := |p|;
    var j := 0;
    var i := m - 1;
    while i >= 0
      invariant -1 <= i <= m - 1
      invariant j == 0 || (IsBorder(p, j) && j < m - 1 - i)
      invariant forall s :: j < s < m - 1 - i ==> !IsBorder(p, s)
      invariant forall x :: 0 <= x < j ==> result[x] == BorderFrom(p, x + 1)
      invariant forall x :: j <= x < m ==> result[x] == m
    {
      if suffix[i] == i + 1 {
        var j0 := j;
        while j < m - 1 - i
          invariant j0 <= j <= m - 1 - i || j == j0
          invariant forall x :: 0 <= x < j0 ==> result[x] == BorderFrom(p, x + 1)
          invariant forall x :: j0 <= x < j ==> result[x] == m - 1 - i
          invariant forall x :: j <= x < m ==> result[x] == m
        {
          if result[j] == m {
            result[j] := m - 1 - i;
          }
          j := j + 1;
        }
        forall x | j0 <= x < j ensures result[x] == BorderFrom(p, x + 1) {
          BorderFromIs(p, x + 1, m - 1 - i);
        }
      }
      i := i - 1;
    }
    forall x | j <= x < m ensures result[x] == BorderFrom(p, x + 1) {
      BorderFromIs(p, x + 1, m);
    }
  }

  /// The third loop of GetBoyerMooreGoodShiftTable: every suffix hit
  /// overwrites its slot, so the last hit wins.
  method ApplySuffixHits(p: string, suffix: array<int>, result: array<int>)
    requires |p| > 0 && IsSuffixTable(p, suffix) && result.Length == |p| && result != suffix
    requires forall x :: 0 <= x < |p| ==> result[x] == BorderFrom(p, x + 1)
    modifies result
    ensures forall x :: 0 <= x < |p| ==> result[x] == TableValue(p, x)
  {
    var m := |p|;
    var i := 0;
    while i <= m - 2
      invariant 0 <= i <= m - 1
      invariant forall x :: 0 <= x < m ==> result[x] == HitOrBorder(p, x, i)
    {
      result[m - 1 - suffix[i]] := m - 1 - i;
      i := i + 1;
    }
  }

  /// The slot value after the suffix hits below `n` are written.
  function HitOrBorder(p: string, x: int, n: int): int
    requires 0 <= x < |p| && 0 <= n <= |p|
  {
    var q := LastSuffixHit(p, x, n);
    if q >= 0 then |p| - 1 - q else BorderFrom(p, x + 1)
  }

  /// The first border from `a` on is `s` when `s` is a border (or m) and
  /// none lies in between.
  lemma BorderFromIs(p: string, a: int, s: int)
    requires 1 <= a <= s <= |p|
    requires s == |p| || IsBorder(p, s)
    requires forall t :: a <= t < s ==> !IsBorder(p, t)
    ensures BorderFrom(p, a) == s
  {
  }

  // ---------------------------------------------------- bad-character table

  /// GetBoyerMooreBadCharacterTable: one entry per alphabet slot.
  method BadCharacterTable(p: string) returns (result: array<int>)
    requires |p| > 0
    ensures result.Length == AlphabetSize
    ensures forall sym :: 0 <= sym < AlphabetSize ==> result[sym] == BadCharEntry(p, sym)
  {
    var m := |p|;
    result := new int[AlphabetSize];
    for i := 0 to AlphabetSize
      invariant forall sym :: 0 <= sym < i ==> result[sym] == m
    {
      result[i] := m;
    }
    for i := 0 to m - 1
      invariant forall sym :: 0 <= sym < AlphabetSize ==> result[sym] == m - 1 - LastIndexBefore(p, sym, i)
    {
      var sym := SymbolOf(p[i]);
      if sym.Some? {
        result[sym.value] := m - i - 1;
      }
    }
  }
}
