/// The order HybridSort (Sys/HybridSort.cs) leaves an array of markers in,
/// written as functions on the array's contents: the Shell sort passes with
/// Ciura's gaps, the chunk sorts and the bottom-up merge passes. The lemmas
/// show that the result is a permutation of the input and, for the inputs
/// the engine sorts, ascending.
module HybridSortSpec {
  import opened TagSearchIndex

  /// Arrays up to this length are Shell-sorted as a whole.
  const MaxCapacityForShell: int := 4000
  /// Longer arrays are Shell-sorted in chunks of this length first.
  const ChunkSize: int := 512
  /// Marcin Ciura's gap sequence (OEIS A102549).
  const Gaps: seq<int> := [1, 4, 10, 23, 57, 132, 301, 701, 1750]

  /// HybridSort.Compare: `first` belongs before `second`. The zero value is
  /// default(int), which the source treats like a null item.
  predicate Compare(first: int, second: int) {
    first != 0 && first < second
  }

  /// Compare is the order `<` except that a zero never belongs before
  /// anything.
  lemma CompareMeaning(first: int, second: int)
    ensures first == 0 ==> !Compare(first, second)
    ensures first != 0 ==> (Compare(first, second) <==> first < second)
    ensures Compare(first, second) ==> !Compare(second, first)
  {
  }

  // ---------------------------------------------------------------------
  // Shell sort

  /// The array with the items at i and j exchanged (HybridSort.Swap).
  function Swapped(s: seq<Marker>, i: int, j: int): (r: seq<Marker>)
    requires 0 <= i < |s| && 0 <= j < |s|
    ensures |r| == |s|
  {
    s[i := s[j]][j := s[i]]
  }

  /// The innermost loop of a gap pass: the item at start + j is compared
  /// with the one `gap` places before it, exchanged when it belongs before
  /// it, and so on down the chain, without stopping early.
  function Sift(s: seq<Marker>, start: int, gap: int, j: int): (r: seq<Marker>)
    requires 1 <= gap && 0 <= start && 0 <= j && start + j < |s|
    ensures |r| == |s|
    decreases |s| + j
  {
    if j < gap then s
    else
      var p := start + j;
      var s' := if Compare(s[p].value, s[p - gap].value) then Swapped(s, p, p - gap) else s;
      Sift(s', start, gap, j - gap)
  }

  /// One gap pass over the segment of `total` items at `start`: Sift from
  /// every i in [gap, total).
  function Pass(s: seq<Marker>, start: int, total: int, gap: int, i: int): (r: seq<Marker>)
    requires 1 <= gap <= i && 0 <= start && start + total <= |s|
    ensures |r| == |s|
    decreases |s| - i
  {
    if i >= total then s
    else Pass(Sift(s, start, gap, i), start, total, gap, i + 1)
  }

  /// Every gap are positive, so the passes are well defined.
  lemma GapsPositive(k: int)
    requires 0 <= k < |Gaps|
    ensures 1 <= Gaps[k] && (k > 0 ==> Gaps[k - 1] < Gaps[k])
  {
  }

  /// The gap passes with Gaps[k], Gaps[k - 1], ..., Gaps[0] = 1.
  function ShellPasses(s: seq<Marker>, start: int, total: int, k: int): (r: seq<Marker>)
    requires -1 <= k < |Gaps| && 0 <= start && start + total <= |s|
    ensures |r| == |s|
    decreases |s| + k + 1
  {
    if k < 0 then s
    else
      GapsPositive(k);
      ShellPasses(Pass(s, start, total, Gaps[k], Gaps[k]), start, total, k - 1)
  }

  /// The first gap index: scanning down from the last, the first index
  /// i > 0 whose gap is below half the segment, else 0.
  function GapIndexFrom(total: int, i: int): (index: int)
    requires 0 <= i < |Gaps|
    ensures 0 <= index <= i
    decreases i
  {
    if i == 0 then 0
    else if Gaps[i] < total / 2 then i
    else GapIndexFrom(total, i - 1)
  }

  function StartGapIndex(total: int): (index: int)
    ensures 0 <= index < |Gaps|
  {
    GapIndexFrom(total, |Gaps| - 1)
  }

  /// The starting gap is the largest gap at an index of at least 1 that is
  /// below half the segment length; when there is none, the only pass is
  /// the one with gap 1.
  lemma {:induction false} StartGapIndexMeaning(total: int)
    ensures var index := StartGapIndex(total);
      0 <= index < |Gaps|
      && (index > 0 ==> Gaps[index] < total / 2)
      && (forall k :: index < k < |Gaps| ==> Gaps[k] >= total / 2)
  {
    GapIndexFromMeaning(total, |Gaps| - 1);
  }

  lemma {:induction false} GapIndexFromMeaning(total: int, i: int)
    requires 0 <= i < |Gaps|
    ensures var index := GapIndexFrom(total, i);
      (index > 0 ==> Gaps[index] < total / 2)
      && (forall k :: index < k <= i ==> Gaps[k] >= total / 2)
    decreases i
  {
    if i > 0 && Gaps[i] >= total / 2 {
      GapIndexFromMeaning(total, i - 1);
    }
  }

  /// ShellSort(array, start, total).
  function ShellSegment(s: seq<Marker>, start: int, total: int): (r: seq<Marker>)
    requires 0 <= start && start + total <= |s|
    ensures |r| == |s|
  {
    ShellPasses(s, start, total, StartGapIndex(total))
  }

  // ---------------------------------------------------------------------
  // Merging

  /// Merge of two runs: the right head is taken when it belongs before the
  /// left head, the left head otherwise (so on ties).
  function Merged(left: seq<Marker>, right: seq<Marker>): (r: seq<Marker>)
    ensures |r| == |left| + |right|
    decreases |left| + |right|
  {
    if |left| == 0 then right
    else if |right| == 0 then left
    else if Compare(right[0].value, left[0].value) then [right[0]] + Merged(left, right[1..])
    else [left[0]] + Merged(left[1..], right)
  }

  /// Merge(buffer, array, l, m, r): the runs [l..m] and [m+1..r] merged in
  /// place, everything else untouched.
  function MergeAt(s: seq<Marker>, l: int, m: int, r: int): (t: seq<Marker>)
    requires 0 <= l <= m < r < |s|
    ensures |t| == |s|
  {
    s[..l] + Merged(s[l..m + 1], s[m + 1..r + 1]) + s[r + 1..]
  }

  /// The inner loop of a merge pass of width `size`, from `index` on.
  function MergePass(s: seq<Marker>, size: int, index: int): (r: seq<Marker>)
    requires 1 <= size && 0 <= index
    ensures |r| == |s|
    decreases |s| - index
  {
    if index >= |s| - size then s
    else MergePass(MergeStep(s, size, index), size, index + size + size)
  }

  /// One merge of a pass: the run of `size` items at `index` with the run
  /// of at most `size` items after it.
  function MergeStep(s: seq<Marker>, size: int, index: int): (r: seq<Marker>)
    requires 1 <= size && 0 <= index < |s| - size
    ensures |r| == |s|
  {
    MergeAt(s, index, index + size - 1, Min(index + size + size - 1, |s| - 1))
  }

  /// The merge passes of width `size`, 2 * size, ... while below the length.
  function MergePasses(s: seq<Marker>, size: int): (r: seq<Marker>)
    requires 1 <= size
    ensures |r| == |s|
    decreases |s| - size
  {
    if size >= |s| then s
    else MergePasses(MergePass(s, size, 0), size + size)
  }

  /// The chunk sorts: every ChunkSize-item chunk from `i` on Shell-sorted.
  function ChunkSorts(s: seq<Marker>, i: int): (r: seq<Marker>)
    requires 0 <= i
    ensures |r| == |s|
    decreases |s| - i
  {
    if i >= |s| then s
    else ChunkSorts(ChunkSort(s, i), i + ChunkSize)
  }

  /// The chunk at `i` Shell-sorted.
  function ChunkSort(s: seq<Marker>, i: int): (r: seq<Marker>)
    requires 0 <= i < |s|
    ensures |r| == |s|
  {
    ShellSegment(s, i, Min(ChunkSize, |s| - i))
  }

  /// HybridSort.Sort on a non-null array.
  function HybridSorted(s: seq<Marker>): (r: seq<Marker>)
    ensures |r| == |s|
  {
    if |s| <= 1 then s
    else if |s| <= MaxCapacityForShell then ShellSegment(s, 0, |s|)
    else MergePasses(ChunkSorts(s, 0), 1)
  }

  function Min(a: int, b: int): int { if a < b then a else b }

  // ---------------------------------------------------------------------
  // Permutation

  lemma SwappedPermutes(s: seq<Marker>, i: int, j: int)
    requires 0 <= i < |s| && 0 <= j < |s|
    ensures multiset(Swapped(s, i, j)) == multiset(s)
  {
    var t := s[i := s[j]];
    assert multiset(t) == multiset(s) - multiset{s[i]} + multiset{s[j]};
    assert multiset(t[j := s[i]]) == multiset(t) - multiset{t[j]} + multiset{s[i]};
  }

  lemma {:induction false} SiftPermutes(s: seq<Marker>, start: int, gap: int, j: int)
    requires 1 <= gap && 0 <= start && 0 <= j && start + j < |s|
    ensures multiset(Sift(s, start, gap, j)) == multiset(s)
    decreases j
  {
    if j >= gap {
      var p := start + j;
      var s' := if Compare(s[p].value, s[p - gap].value) then Swapped(s, p, p - gap) else s;
      SwappedPermutes(s, p, p - gap);
      SiftPermutes(s', start, gap, j - gap);
    }
  }

  lemma {:induction false} PassPermutes(s: seq<Marker>, start: int, total: int, gap: int, i: int)
    requires 1 <= gap <= i && 0 <= start && start + total <= |s|
    ensures multiset(Pass(s, start, total, gap, i)) == multiset(s)
    decreases total - i
  {
    if i < total {
      SiftPermutes(s, start, gap, i);
      PassPermutes(Sift(s, start, gap, i), start, total, gap, i + 1);
    }
  }

  lemma {:induction false} ShellPassesPermutes(s: seq<Marker>, start: int, total: int, k: int)
    requires -1 <= k < |Gaps| && 0 <= start && start + total <= |s|
    ensures multiset(ShellPasses(s, start, total, k)) == multiset(s)
    decreases k + 1
  {
    if k >= 0 {
      GapsPositive(k);
      PassPermutes(s, start, total, Gaps[k], Gaps[k]);
      ShellPassesPermutes(Pass(s, start, total, Gaps[k], Gaps[k]), start, total, k - 1);
    }
  }

  /// Shell sort only reorders the items.
  lemma ShellSegmentPermutes(s: seq<Marker>, start: int, total: int)
    requires 0 <= start && start + total <= |s|
    ensures multiset(ShellSegment(s, start, total)) == multiset(s)
  {
    ShellPassesPermutes(s, start, total, StartGapIndex(total));
  }

  /// A merge holds the items of both runs.
  lemma {:induction false} MergedPermutes(left: seq<Marker>, right: seq<Marker>)
    ensures multiset(Merged(left, right)) == multiset(left) + multiset(right)
    decreases |left| + |right|
  {
    if |left| > 0 && |right| > 0 {
      if Compare(right[0].value, left[0].value) {
        var rest := right[1..];
        MergedPermutes(left, rest);
        HeadPermutes(right, Merged(left, rest), left);
      } else {
        var rest := left[1..];
        MergedPermutes(rest, right);
        HeadPermutes(left, Merged(rest, right), right);
      }
    }
  }

  /// Taking the head of `xs` in front of a merge of its tail with `other`.
  lemma HeadPermutes(xs: seq<Marker>, merged: seq<Marker>, other: seq<Marker>)
    requires |xs| > 0 && multiset(merged) == multiset(xs[1..]) + multiset(other)
    ensures multiset([xs[0]] + merged) == multiset(xs) + multiset(other)
  {
    assert xs == [xs[0]] + xs[1..];
  }

  lemma MergeAtPermutes(s: seq<Marker>, l: int, m: int, r: int)
    requires 0 <= l <= m < r < |s|
    ensures multiset(MergeAt(s, l, m, r)) == multiset(s)
  {
    var left, right := s[l..m + 1], s[m + 1..r + 1];
    assert s == s[..l] + (left + right) + s[r + 1..];
    assert MergeAt(s, l, m, r) == s[..l] + Merged(left, right) + s[r + 1..];
    MergedPermutes(left, right);
  }

  lemma {:induction false} MergePassPermutes(s: seq<Marker>, size: int, index: int)
    requires 1 <= size && 0 <= index
    ensures multiset(MergePass(s, size, index)) == multiset(s)
    decreases |s| - index
  {
    if index < |s| - size {
      var t, next := MergePassStep(s, size, index);
      MergePassPermutes(t, size, next);
    }
  }

  lemma MergeStepPermutes(s: seq<Marker>, size: int, index: int)
    requires 1 <= size && 0 <= index < |s| - size
    ensures multiset(MergeStep(s, size, index)) == multiset(s)
  {
    var m, hi := index + size - 1, Min(index + size + size - 1, |s| - 1);
    assert MergeStep(s, size, index) == MergeAt(s, index, m, hi);
    MergeAtPermutes(s, index, m, hi);
  }

  lemma {:induction false} MergePassesPermutes(s: seq<Marker>, size: int)
    requires 1 <= size
    ensures multiset(MergePasses(s, size)) == multiset(s)
    decreases |s| - size
  {
    if size < |s| {
      var t, next := MergePassesStep(s, size);
      MergePassesPermutes(t, next);
    }
  }

  lemma {:induction false} ChunkSortsPermutes(s: seq<Marker>, i: int)
    requires 0 <= i
    ensures multiset(ChunkSorts(s, i)) == multiset(s)
    decreases |s| - i
  {
    if i < |s| {
      var t, next := ChunkStep(s, i);
      ChunkSortsPermutes(t, next);
    }
  }

  /// The chunk sorts are the sort of the chunk at `i` followed by those
  /// from the next chunk on. Sorting one chunk only reorders items and,
  /// without negative values, keeps the zeros where they are.
  lemma ChunkStep(s: seq<Marker>, i: int) returns (t: seq<Marker>, next: int)
    requires 0 <= i < |s|
    ensures |t| == |s| && next == i + ChunkSize && ChunkSorts(s, i) == ChunkSorts(t, next)
    ensures multiset(t) == multiset(s)
    ensures NonNegative(s) ==> NonNegative(t) && SameZeros(s, t)
  {
    t, next := ChunkSort(s, i), i + ChunkSize;
    var total := Min(ChunkSize, |s| - i);
    assert t == ShellSegment(s, i, total);
    ShellSegmentPermutes(s, i, total);
    if NonNegative(s) {
      ShellSegmentKeepsZeros(s, i, total);
    }
  }

  /// The sort is a permutation of its input, for every input; arrays of
  /// at most one item are left as they are.
  lemma HybridSortedPermutes(s: seq<Marker>)
    ensures multiset(HybridSorted(s)) == multiset(s)
    ensures |s| <= 1 ==> HybridSorted(s) == s
  {
    if 1 < |s| <= MaxCapacityForShell {
      ShellSegmentPermutes(s, 0, |s|);
    } else if |s| > MaxCapacityForShell {
      ChunkSortsPermutes(s, 0);
      MergePassesPermutes(ChunkSorts(s, 0), 1);
    }
  }

  // ---------------------------------------------------------------------
  // Order

  /// Ascending by value.
  predicate Sorted(s: seq<Marker>) {
    forall i, j :: 0 <= i < j < |s| ==> s[i].value <= s[j].value
  }

  predicate NonNegative(s: seq<Marker>) {
    forall k :: 0 <= k < |s| ==> s[k].value >= 0
  }

  /// No zero item after a non-zero one. Marker positions are never
  /// negative, and a zero one can only be the first opener.
  predicate ZeroPrefix(s: seq<Marker>) {
    forall i, j :: 0 <= i < j < |s| && s[j].value == 0 ==> s[i].value == 0
  }

  /// The same positions hold zeros in `s` and `t`.
  predicate SameZeros(s: seq<Marker>, t: seq<Marker>) {
    |s| == |t| && forall k :: 0 <= k < |s| ==> (s[k].value == 0 <==> t[k].value == 0)
  }

  /// In the segment [lo, hi) no item belongs before its predecessor.
  predicate NoInversion(s: seq<Marker>, lo: int, hi: int) {
    forall q :: lo < q < hi && 0 < q < |s| ==> !Compare(s[q].value, s[q - 1].value)
  }

  /// Every item of `s` has a value of at least `b`.
  predicate AtLeast(b: int, s: seq<Marker>) {
    forall x :: x in s ==> b <= x.value
  }

  lemma {:induction false} AdjacentSorted(s: seq<Marker>)
    requires forall q :: 0 < q < |s| ==> s[q - 1].value <= s[q].value
    ensures Sorted(s)
  {
    if |s| > 1 {
      var u := s[..|s| - 1];
      AdjacentSorted(u);
      forall i, j | 0 <= i < j < |s| ensures s[i].value <= s[j].value {
        if j < |s| - 1 {
          assert u[i] == s[i] && u[j] == s[j];
        } else if i < |s| - 1 {
          assert u[i] == s[i] && u[|s| - 2] == s[|s| - 2];
        }
      }
    }
  }

  /// A segment whose neighbours are in order is sorted.
  lemma SegmentSorted(s: seq<Marker>, lo: int, hi: int)
    requires 0 <= lo <= hi <= |s|
    requires forall q :: lo < q < hi ==> s[q - 1].value <= s[q].value
    ensures Sorted(s[lo..hi])
  {
    var u := s[lo..hi];
    forall q | 0 < q < |u| ensures u[q - 1].value <= u[q].value {
      assert u[q - 1] == s[lo + q - 1] && u[q] == s[lo + q];
    }
    AdjacentSorted(u);
  }

  // Shell sort keeps zeros in place and ends with an insertion pass

  lemma {:induction false} SiftKeepsZeros(s: seq<Marker>, start: int, gap: int, j: int)
    requires 1 <= gap && 0 <= start && 0 <= j && start + j < |s|
    requires NonNegative(s)
    ensures NonNegative(Sift(s, start, gap, j)) && SameZeros(s, Sift(s, start, gap, j))
    decreases j
  {
    if j >= gap {
      var p := start + j;
      var s' := if Compare(s[p].value, s[p - gap].value) then Swapped(s, p, p - gap) else s;
      assert SameZeros(s, s') && NonNegative(s');
      SiftKeepsZeros(s', start, gap, j - gap);
    }
  }

  lemma {:induction false} PassKeepsZeros(s: seq<Marker>, start: int, total: int, gap: int, i: int)
    requires 1 <= gap <= i && 0 <= start && start + total <= |s|
    requires NonNegative(s)
    ensures NonNegative(Pass(s, start, total, gap, i)) && SameZeros(s, Pass(s, start, total, gap, i))
    decreases total - i
  {
    if i < total {
      SiftKeepsZeros(s, start, gap, i);
      PassKeepsZeros(Sift(s, start, gap, i), start, total, gap, i + 1);
    }
  }

  lemma {:induction false} ShellPassesKeepZeros(s: seq<Marker>, start: int, total: int, k: int)
    requires -1 <= k < |Gaps| && 0 <= start && start + total <= |s|
    requires NonNegative(s)
    ensures NonNegative(ShellPasses(s, start, total, k)) && SameZeros(s, ShellPasses(s, start, total, k))
    decreases k + 1
  {
    if k >= 0 {
      GapsPositive(k);
      PassKeepsZeros(s, start, total, Gaps[k], Gaps[k]);
      ShellPassesKeepZeros(Pass(s, start, total, Gaps[k], Gaps[k]), start, total, k - 1);
    }
  }

  /// With no negative values, Shell sort never moves a zero: an exchange
  /// needs an item that is not zero and smaller than a positive one.
  lemma ShellSegmentKeepsZeros(s: seq<Marker>, start: int, total: int)
    requires 0 <= start && start + total <= |s|
    requires NonNegative(s)
    ensures NonNegative(ShellSegment(s, start, total)) && SameZeros(s, ShellSegment(s, start, total))
  {
    ShellPassesKeepZeros(s, start, total, StartGapIndex(total));
  }

  /// Once the segment up to start + j is in order, the rest of the chain
  /// exchanges nothing.
  lemma {:induction false} SiftSettled(s: seq<Marker>, start: int, j: int)
    requires 0 <= start && 0 <= j && start + j < |s|
    requires NoInversion(s, start, start + j + 1)
    ensures Sift(s, start, 1, j) == s
    decreases j
  {
    if j >= 1 {
      SiftSettled(s, start, j - 1);
    }
  }

  /// The gap-1 chain from start + j, with the item there being moved
  /// down: everything below it and everything from it up to `hi` is in
  /// order, and so are the two items around it. The chain leaves the
  /// segment up to `hi` in order.
  lemma {:induction false} SiftInserts(s: seq<Marker>, start: int, j: int, hi: int)
    requires 0 <= start && 0 <= j && start + j <= hi < |s|
    requires NoInversion(s, start, start + j) && NoInversion(s, start + j, hi + 1)
    requires start < start + j < hi ==> !Compare(s[start + j + 1].value, s[start + j - 1].value)
    ensures NoInversion(Sift(s, start, 1, j), start, hi + 1)
    decreases j
  {
    if j >= 1 {
      var p := start + j;
      if Compare(s[p].value, s[p - 1].value) {
        ExchangeInserts(s, start, p, hi);
        SiftInserts(Swapped(s, p, p - 1), start, j - 1, hi);
      } else {
        SiftSettled(s, start, j - 1);
      }
    }
  }

  /// One exchange of the gap-1 chain moves the inserted item down by one
  /// and keeps both ordered runs around it.
  lemma ExchangeInserts(s: seq<Marker>, start: int, p: int, hi: int)
    requires 0 <= start < p <= hi < |s|
    requires NoInversion(s, start, p) && NoInversion(s, p, hi + 1)
    requires p < hi ==> !Compare(s[p + 1].value, s[p - 1].value)
    requires Compare(s[p].value, s[p - 1].value)
    ensures var t := Swapped(s, p, p - 1);
      NoInversion(t, start, p - 1) && NoInversion(t, p - 1, hi + 1) &&
      (start < p - 1 ==> !Compare(t[p].value, t[p - 2].value))
  {
    var t := Swapped(s, p, p - 1);
    assert t[p] == s[p - 1] && t[p - 1] == s[p];
    assert NoInversion(t, p - 1, hi + 1);
  }

  /// A gap-1 pass from i on, with the first i items in order, puts the
  /// whole segment in order: it is an insertion sort.
  lemma {:induction false} PassSorts(s: seq<Marker>, start: int, total: int, i: int)
    requires 1 <= i <= total && 0 <= start && start + total <= |s|
    requires NoInversion(s, start, start + i)
    ensures NoInversion(Pass(s, start, total, 1, i), start, start + total)
    decreases total - i
  {
    if i < total {
      SiftInserts(s, start, i, start + i);
      PassSorts(Sift(s, start, 1, i), start, total, i + 1);
    }
  }

  lemma {:induction false} ShellPassesSort(s: seq<Marker>, start: int, total: int, k: int)
    requires 0 <= k < |Gaps| && 0 <= start && 1 <= total && start + total <= |s|
    ensures NoInversion(ShellPasses(s, start, total, k), start, start + total)
    decreases k
  {
    GapsPositive(k);
    var t := Pass(s, start, total, Gaps[k], Gaps[k]);
    if k == 0 {
      PassSorts(s, start, total, 1);
    } else {
      ShellPassesSort(t, start, total, k - 1);
    }
  }

  /// After Shell sort no item of the segment belongs before its
  /// predecessor, whatever the values: the last pass has gap 1.
  lemma ShellSegmentSorts(s: seq<Marker>, start: int, total: int)
    requires 0 <= start && 1 <= total && start + total <= |s|
    ensures NoInversion(ShellSegment(s, start, total), start, start + total)
  {
    ShellPassesSort(s, start, total, StartGapIndex(total));
  }

  /// Without negative values and with the zeros in front, an array with no
  /// inversion is ascending.
  lemma NoInversionSorted(s: seq<Marker>)
    requires NonNegative(s) && ZeroPrefix(s) && NoInversion(s, 0, |s|)
    ensures Sorted(s)
  {
    forall q | 0 < q < |s| ensures s[q - 1].value <= s[q].value {
      assert !Compare(s[q].value, s[q - 1].value);
    }
    AdjacentSorted(s);
  }

  // Merging keeps the order

  /// When the right run starts with a zero, every item of the left run is
  /// zero.
  predicate ZerosFirst(left: seq<Marker>, right: seq<Marker>) {
    |right| > 0 && right[0].value == 0 ==> forall x :: x in left ==> x.value == 0
  }

  lemma SortedHead(s: seq<Marker>)
    requires |s| > 0 && Sorted(s)
    ensures AtLeast(s[0].value, s)
  {
    forall x | x in s ensures s[0].value <= x.value {
      var i :| 0 <= i < |s| && s[i] == x;
    }
  }

  lemma ConsSorted(x: Marker, t: seq<Marker>)
    requires Sorted(t) && AtLeast(x.value, t)
    ensures Sorted([x] + t)
  {
    var u := [x] + t;
    forall i, j | 0 <= i < j < |u| ensures u[i].value <= u[j].value {
      assert u[j] == t[j - 1];
      if i > 0 {
        assert u[i] == t[i - 1];
      } else {
        assert t[j - 1] in t;
      }
    }
  }

  /// A lower bound of both runs bounds their merge.
  lemma MergedAtLeast(b: int, left: seq<Marker>, right: seq<Marker>)
    requires AtLeast(b, left) && AtLeast(b, right)
    ensures AtLeast(b, Merged(left, right))
  {
    MergedPermutes(left, right);
    var r := Merged(left, right);
    forall x | x in r ensures b <= x.value {
      assert x in multiset(r);
      assert x in multiset(left) || x in multiset(right);
    }
  }

  /// The merge of two ascending runs is ascending, as long as the zeros
  /// come first: a zero on the right is never taken before the left run.
  lemma {:induction false} MergedSorted(left: seq<Marker>, right: seq<Marker>)
    requires Sorted(left) && Sorted(right) && NonNegative(left) && NonNegative(right)
    requires ZerosFirst(left, right)
    ensures Sorted(Merged(left, right))
    decreases |left| + |right|
  {
    if |left| > 0 && |right| > 0 {
      var l, r := left[0], right[0];
      SortedHead(left);
      SortedHead(right);
      if Compare(r.value, l.value) {
        var rest := right[1..];
        assert Merged(left, right) == [r] + Merged(left, rest);
        assert AtLeast(r.value, left);
        MergedAtLeast(r.value, left, rest);
        MergedSorted(left, rest);
        ConsSorted(r, Merged(left, rest));
      } else {
        var rest := left[1..];
        assert Merged(left, right) == [l] + Merged(rest, right);
        assert l in left;
        assert AtLeast(l.value, right);
        MergedAtLeast(l.value, rest, right);
        MergedSorted(rest, right);
        ConsSorted(l, Merged(rest, right));
      }
    }
  }

  /// Every item of the merge comes from the segment [l, r] it replaces.
  lemma MergeAtFrom(s: seq<Marker>, l: int, m: int, r: int, k: int) returns (q: int)
    requires 0 <= l <= m < r < |s| && l <= k <= r
    ensures l <= q <= r && MergeAt(s, l, m, r)[k] == s[q]
  {
    var left, right := s[l..m + 1], s[m + 1..r + 1];
    var merged := Merged(left, right);
    MergedPermutes(left, right);
    assert s[l..r + 1] == left + right;
    assert MergeAt(s, l, m, r)[k] == merged[k - l];
    assert merged[k - l] in multiset(left + right);
    var i :| 0 <= i < |left + right| && (left + right)[i] == merged[k - l];
    q := l + i;
  }

  /// Merging two ascending neighbouring runs of an array without negative
  /// values and with its zeros in front: the segment becomes ascending,
  /// the rest is unchanged, and still no value is negative and no zero
  /// follows a non-zero value.
  lemma MergeAtKeepsOrder(s: seq<Marker>, l: int, m: int, r: int)
    requires 0 <= l <= m < r < |s|
    requires NonNegative(s) && ZeroPrefix(s)
    requires Sorted(s[l..m + 1]) && Sorted(s[m + 1..r + 1])
    ensures var t := MergeAt(s, l, m, r);
      NonNegative(t) && ZeroPrefix(t) && Sorted(t[l..r + 1]) &&
      t[..l] == s[..l] && t[r + 1..] == s[r + 1..]
  {
    var left, right := s[l..m + 1], s[m + 1..r + 1];
    RunsZerosFirst(s, l, m, r);
    MergedSorted(left, right);
    var t := MergeAt(s, l, m, r);
    assert t[l..r + 1] == Merged(left, right);
    MergeAtNonNegative(s, l, m, r);
    MergeAtZeroPrefix(s, l, m, r);
  }

  lemma RunsZerosFirst(s: seq<Marker>, l: int, m: int, r: int)
    requires 0 <= l <= m < r < |s| && ZeroPrefix(s)
    ensures ZerosFirst(s[l..m + 1], s[m + 1..r + 1])
  {
    var left, right := s[l..m + 1], s[m + 1..r + 1];
    if right[0].value == 0 {
      forall x | x in left ensures x.value == 0 {
        var i :| 0 <= i < |left| && left[i] == x;
        assert s[l + i] == x && s[m + 1] == right[0];
      }
    }
  }

  lemma MergeAtNonNegative(s: seq<Marker>, l: int, m: int, r: int)
    requires 0 <= l <= m < r < |s| && NonNegative(s)
    ensures NonNegative(MergeAt(s, l, m, r))
  {
    var t := MergeAt(s, l, m, r);
    forall k | 0 <= k < |t| ensures t[k].value >= 0 {
      if l <= k <= r {
        var q := MergeAtFrom(s, l, m, r, k);
      }
    }
  }

  lemma MergeAtZeroPrefix(s: seq<Marker>, l: int, m: int, r: int)
    requires 0 <= l <= m < r < |s| && NonNegative(s) && ZeroPrefix(s)
    requires Sorted(MergeAt(s, l, m, r)[l..r + 1])
    ensures ZeroPrefix(MergeAt(s, l, m, r))
  {
    var t := MergeAt(s, l, m, r);
    var merged := t[l..r + 1];
    forall i, j | 0 <= i < j < |t| && t[j].value == 0 ensures t[i].value == 0 {
      var qj := j;
      if l <= j <= r {
        qj := MergeAtFrom(s, l, m, r, j);
      }
      if l <= i <= r && l <= j <= r {
        assert t[i] == merged[i - l] && t[j] == merged[j - l];
        var qi := MergeAtFrom(s, l, m, r, i);
      } else if l <= i <= r {
        var qi := MergeAtFrom(s, l, m, r, i);
      } else {
        assert t[i] == s[i];
      }
    }
  }

  // Bottom-up merge passes

  /// `q` starts a run of width `w` counted from 0.
  predicate Boundary(q: int, w: int)
    requires 1 <= w
    decreases q
  {
    q == 0 || (q >= w && Boundary(q - w, w))
  }

  /// Inside [lo, hi) every item that does not start a run of width `w`
  /// follows its predecessor in ascending order.
  predicate RunsIn(s: seq<Marker>, w: int, lo: int, hi: int)
    requires 1 <= w
  {
    forall q :: lo < q < hi && 0 < q < |s| && !Boundary(q, w) ==> s[q - 1].value <= s[q].value
  }

  lemma {:induction false} BoundaryOne(q: int)
    requires 0 <= q
    ensures Boundary(q, 1)
    decreases q
  {
    if q > 0 {
      BoundaryOne(q - 1);
    }
  }

  /// A run of width 2w starts where a run of width w starts.
  lemma {:induction false} BoundaryHalf(q: int, w: int)
    requires 1 <= w && Boundary(q, w + w)
    ensures Boundary(q, w)
    decreases q
  {
    if q != 0 {
      var below, middle := q - (w + w), q - w;
      BoundaryHalf(below, w);
      assert below == middle - w;
      assert Boundary(middle, w);
    }
  }

  lemma BoundaryStep(b: int, w: int, c: int)
    requires 1 <= w && Boundary(b, w) && c == b + w
    ensures Boundary(c, w)
  {
    assert c - w == b;
  }

  /// No run starts strictly inside the run of width `w` that starts at b.
  lemma {:induction false} BoundaryGap(b: int, q: int, w: int)
    requires 1 <= w && Boundary(b, w) && b < q < b + w
    ensures !Boundary(q, w)
    decreases b
  {
    if b != 0 {
      BoundaryGap(b - w, q - w, w);
    }
  }

  /// The two runs a merge step joins are each ascending.
  lemma StepRunsSorted(s: seq<Marker>, w: int, index: int, m: int, hi: int)
    requires 1 <= w && 0 <= index && m == index + w - 1 && m < hi < |s| && hi < index + w + w
    requires Boundary(index, w + w) && RunsIn(s, w, index, |s|)
    ensures Sorted(s[index..m + 1]) && Sorted(s[m + 1..hi + 1])
  {
    BoundaryHalf(index, w);
    forall q | index < q <= m ensures s[q - 1].value <= s[q].value {
      BoundaryGap(index, q, w);
    }
    SegmentSorted(s, index, m + 1);
    BoundaryStep(index, w, m + 1);
    forall q | m + 1 < q <= hi ensures s[q - 1].value <= s[q].value {
      BoundaryGap(m + 1, q, w);
    }
    SegmentSorted(s, m + 1, hi + 1);
  }

  /// Below a merged segment starting at a run start, the runs of width 2w
  /// are those of before.
  lemma RunsBelow(s: seq<Marker>, t: seq<Marker>, w: int, index: int, hi: int)
    requires 1 <= w && 0 <= index <= hi < |s| == |t| && hi < index + w + w
    requires (hi == |s| - 1 || hi == index + w + w - 1) && Boundary(index, w + w)
    requires t[..index] == s[..index] && Sorted(t[index..hi + 1])
    requires RunsIn(s, w + w, 0, index)
    ensures RunsIn(t, w + w, 0, index + w + w)
  {
    var run := t[index..hi + 1];
    forall q | 0 < q < index + w + w && q < |t| && !Boundary(q, w + w)
      ensures t[q - 1].value <= t[q].value
    {
      if q < index {
        assert t[..index][q] == s[..index][q] && t[..index][q - 1] == s[..index][q - 1];
      } else {
        assert run[q - index - 1] == t[q - 1] && run[q - index] == t[q];
      }
    }
  }

  /// Above a merged segment the runs of width w are those of before.
  lemma RunsAbove(s: seq<Marker>, t: seq<Marker>, w: int, lo: int, hi: int)
    requires 1 <= w && 0 <= hi < lo && |s| == |t| && hi + 1 <= |s|
    requires t[hi + 1..] == s[hi + 1..] && RunsIn(s, w, lo, |s|)
    ensures RunsIn(t, w, lo, |t|)
  {
    forall q | lo < q < |t| && !Boundary(q, w) ensures t[q - 1].value <= t[q].value {
      assert t[hi + 1..][q - hi - 1] == s[hi + 1..][q - hi - 1];
      assert t[hi + 1..][q - hi - 2] == s[hi + 1..][q - hi - 2];
    }
  }

  /// One merge of a pass of width `w` at a run start `index`: the two runs
  /// after it become one ascending run of width 2w and the rest keeps its
  /// runs.
  lemma MergeStepKeepsOrder(s: seq<Marker>, w: int, index: int)
    requires 1 <= w && 0 <= index < |s| - w
    requires Boundary(index, w + w) && NonNegative(s) && ZeroPrefix(s)
    requires RunsIn(s, w + w, 0, index) && RunsIn(s, w, index, |s|)
    ensures var t := MergeStep(s, w, index);
      NonNegative(t) && ZeroPrefix(t) &&
      RunsIn(t, w + w, 0, index + w + w) && RunsIn(t, w, index + w + w, |t|)
  {
    var m, hi := index + w - 1, Min(index + w + w - 1, |s| - 1);
    StepRunsSorted(s, w, index, m, hi);
    MergeAtKeepsOrder(s, index, m, hi);
    var t := MergeAt(s, index, m, hi);
    assert t == MergeStep(s, w, index);
    RunsBelow(s, t, w, index, hi);
    RunsAbove(s, t, w, index + w + w, hi);
  }

  /// The last run of a pass, shorter than w, is already in order.
  lemma PassTailRuns(s: seq<Marker>, w: int, index: int)
    requires 1 <= w && 0 <= index && |s| - w <= index
    requires Boundary(index, w + w)
    requires RunsIn(s, w + w, 0, index) && RunsIn(s, w, index, |s|)
    ensures RunsIn(s, w + w, 0, |s|)
  {
    BoundaryHalf(index, w);
    forall q | index < q < |s| ensures !Boundary(q, w) {
      BoundaryGap(index, q, w);
    }
  }

  /// A merge pass is its first merge step followed by the pass from the
  /// next pair of runs. The step only reorders items and, on an array
  /// without negative values and with its zeros in front, joins the two
  /// runs of width `size` at a run start `index` into one ascending run.
  lemma MergePassStep(s: seq<Marker>, size: int, index: int) returns (t: seq<Marker>, next: int)
    requires 1 <= size && 0 <= index < |s| - size
    ensures |t| == |s| && next == index + size + size
    ensures MergePass(s, size, index) == MergePass(t, size, next)
    ensures multiset(t) == multiset(s)
    ensures (Boundary(index, size + size) && NonNegative(s) && ZeroPrefix(s) &&
             RunsIn(s, size + size, 0, index) && RunsIn(s, size, index, |s|)) ==>
      NonNegative(t) && ZeroPrefix(t) && RunsIn(t, size + size, 0, next) && RunsIn(t, size, next, |t|)
  {
    t, next := MergeStep(s, size, index), index + size + size;
    assert MergePass(s, size, index) == MergePass(t, size, next);
    MergeStepPermutes(s, size, index);
    if Boundary(index, size + size) && NonNegative(s) && ZeroPrefix(s) &&
      RunsIn(s, size + size, 0, index) && RunsIn(s, size, index, |s|)
    {
      MergeStepKeepsOrder(s, size, index);
    }
  }

  /// The merge passes are the pass of width `size` followed by those from
  /// width 2 * size on. The pass only reorders items and, on an array
  /// without negative values and with its zeros in front, turns ascending
  /// runs of width `size` into ascending runs of twice that width.
  lemma MergePassesStep(s: seq<Marker>, size: int) returns (t: seq<Marker>, next: int)
    requires 1 <= size < |s|
    ensures |t| == |s| && next == size + size
    ensures MergePasses(s, size) == MergePasses(t, next)
    ensures multiset(t) == multiset(s)
    ensures NonNegative(s) && ZeroPrefix(s) && RunsIn(s, size, 0, |s|) ==>
      NonNegative(t) && ZeroPrefix(t) && RunsIn(t, next, 0, |t|)
  {
    t, next := MergePass(s, size, 0), size + size;
    assert MergePasses(s, size) == MergePasses(t, next);
    MergePassPermutes(s, size, 0);
    if NonNegative(s) && ZeroPrefix(s) && RunsIn(s, size, 0, |s|) {
      MergePassKeepsOrder(s, size, 0);
    }
  }

  /// A merge pass of width `w` from a run start on leaves runs of width 2w.
  lemma {:induction false} MergePassKeepsOrder(s: seq<Marker>, w: int, index: int)
    requires 1 <= w && 0 <= index
    requires Boundary(index, w + w) && NonNegative(s) && ZeroPrefix(s)
    requires RunsIn(s, w + w, 0, index) && RunsIn(s, w, index, |s|)
    ensures var t := MergePass(s, w, index);
      NonNegative(t) && ZeroPrefix(t) && RunsIn(t, w + w, 0, |t|)
    decreases |s| - index
  {
    if index >= |s| - w {
      PassTailRuns(s, w, index);
    } else {
      var t, next := MergePassStep(s, w, index);
      BoundaryStep(index, w + w, next);
      MergePassKeepsOrder(t, w, next);
    }
  }

  /// The merge passes from width `w` on sort an array made of ascending
  /// runs of width `w`.
  lemma {:induction false} MergePassesSorted(s: seq<Marker>, w: int)
    requires 1 <= w && NonNegative(s) && ZeroPrefix(s) && RunsIn(s, w, 0, |s|)
    ensures Sorted(MergePasses(s, w))
    decreases |s| - w
  {
    if w >= |s| {
      forall q | 0 < q < |s| ensures s[q - 1].value <= s[q].value {
        BoundaryGap(0, q, w);
      }
      AdjacentSorted(s);
    } else {
      var t, next := MergePassesStep(s, w);
      MergePassesSorted(t, next);
    }
  }

  lemma {:induction false} ChunkSortsKeepZeros(s: seq<Marker>, i: int)
    requires 0 <= i && NonNegative(s)
    ensures NonNegative(ChunkSorts(s, i)) && SameZeros(s, ChunkSorts(s, i))
    decreases |s| - i
  {
    if i < |s| {
      var t, next := ChunkStep(s, i);
      ChunkSortsKeepZeros(t, next);
    }
  }

  /// HybridSort sorts ascending when no value is negative and no zero
  /// follows a non-zero value (marker positions are never negative).
  lemma HybridSortedAscending(s: seq<Marker>)
    requires NonNegative(s) && ZeroPrefix(s)
    ensures Sorted(HybridSorted(s))
  {
    if 1 < |s| <= MaxCapacityForShell {
      var t := ShellSegment(s, 0, |s|);
      ShellSegmentKeepsZeros(s, 0, |s|);
      ShellSegmentSorts(s, 0, |s|);
      NoInversionSorted(t);
    } else if |s| > MaxCapacityForShell {
      var t := ChunkSorts(s, 0);
      ChunkSortsKeepZeros(s, 0);
      forall q | 0 < q < |t| ensures Boundary(q, 1) {
        BoundaryOne(q);
      }
      MergePassesSorted(t, 1);
    }
  }
}
