/// HybridSort (Sys/HybridSort.cs) on an array of markers: Shell sort with
/// Ciura's gaps for arrays of up to 4000 items; for longer ones, Shell sort
/// of 512-item chunks followed by bottom-up merge passes through a buffer.
/// Every method is proved to leave the array as the function of the same
/// name in HybridSortSpec says, and the lemmas there show what that order
/// is.
module HybridSort {
  import opened Wrappers
  import opened Guard
  import opened TagSearchIndex
  import opened HybridSortSpec

  /// HybridSort.Swap.
  method Swap(a: array<Marker>, i: int, j: int)
    requires 0 <= i < a.Length && 0 <= j < a.Length
    modifies a
    ensures a[..] == Swapped(old(a[..]), i, j)
  {
    var tmp := a[i];
    a[i] := a[j];
    a[j] := tmp;
  }

  /// HybridSort.ShellSort on the `total` items from `startIndex`.
  method ShellSort(a: array<Marker>, startIndex: int, total: int)
    requires 0 <= startIndex && 0 <= total && startIndex + total <= a.Length
    modifies a
    ensures a[..] == ShellSegment(old(a[..]), startIndex, total)
  {
    // The starting gap.
    var index := 0;
    var g := |Gaps| - 1;
    while g > 0
      invariant 0 <= g < |Gaps| && index == 0
      invariant GapIndexFrom(total, g) == StartGapIndex(total)
      decreases g
    {
      if Gaps[g] < total / 2 {
        index := g;
        break;
      }
      g := g - 1;
    }
    assert index == StartGapIndex(total);

    ghost var s0 := a[..];
    var k := index;
    while k >= 0
      invariant -1 <= k < |Gaps|
      invariant ShellPasses(a[..], startIndex, total, k) == ShellSegment(s0, startIndex, total)
      decreases k + 1
    {
      var magicNumber := Gaps[k];
      GapsPositive(k);
      ghost var before := a[..];
      GapPass(a, startIndex, total, magicNumber);
      assert ShellPasses(before, startIndex, total, k) == ShellPasses(a[..], startIndex, total, k - 1);
      k := k - 1;
    }
  }

  /// The pass of ShellSort with one gap (its loop over i).
  method GapPass(a: array<Marker>, startIndex: int, total: int, magicNumber: int)
    requires 1 <= magicNumber && 0 <= startIndex && 0 <= total && startIndex + total <= a.Length
    modifies a
    ensures a[..] == HybridSortSpec.Pass(old(a[..]), startIndex, total, magicNumber, magicNumber)
  {
    var i := magicNumber;
    while i < total
      invariant magicNumber <= i
      invariant HybridSortSpec.Pass(a[..], startIndex, total, magicNumber, i) == HybridSortSpec.Pass(old(a[..]), startIndex, total, magicNumber, magicNumber)
      decreases total - i
    {
      ghost var row := a[..];
      SiftChain(a, startIndex, magicNumber, i);
      assert HybridSortSpec.Pass(row, startIndex, total, magicNumber, i) == HybridSortSpec.Pass(a[..], startIndex, total, magicNumber, i + 1);
      i := i + 1;
    }
  }

  /// The chain of compare-and-exchange steps of ShellSort from the item at
  /// startIndex + i down in steps of the gap (its loop over j).
  method SiftChain(a: array<Marker>, startIndex: int, magicNumber: int, i: int)
    requires 1 <= magicNumber && 0 <= startIndex && 0 <= i && startIndex + i < a.Length
    modifies a
    ensures a[..] == Sift(old(a[..]), startIndex, magicNumber, i)
  {
    var j := i;
    while j >= magicNumber
      invariant 0 <= j <= i
      invariant Sift(a[..], startIndex, magicNumber, j) == Sift(old(a[..]), startIndex, magicNumber, i)
      decreases j
    {
      if Compare(a[startIndex + j].value, a[startIndex + j - magicNumber].value) {
        Swap(a, startIndex + j, startIndex + j - magicNumber);
      }
      j := j - magicNumber;
    }
  }

  /// Array.Copy between two distinct arrays: `length` items from
  /// `sourceIndex` on are copied to `destinationIndex` on, and nothing else
  /// of the destination changes.
  method ArrayCopy(source: array<Marker>, sourceIndex: int, destination: array<Marker>, destinationIndex: int, length: int)
    requires source != destination && 0 <= length
    requires 0 <= sourceIndex && sourceIndex + length <= source.Length
    requires 0 <= destinationIndex && destinationIndex + length <= destination.Length
    modifies destination
    ensures forall p :: 0 <= p < destination.Length ==>
      destination[p] == if destinationIndex <= p < destinationIndex + length then source[sourceIndex + p - destinationIndex] else old(destination[p])
  {
    forall k | 0 <= k < length {
      destination[destinationIndex + k] := source[sourceIndex + k];
    }
  }

  /// HybridSort.Merge: the runs [leftIndex, medianIndex] and
  /// [medianIndex + 1, rightIndex] of `a` are copied to the same places of
  /// `buffer` and merged back into `a`.
  method Merge(buffer: array<Marker>, a: array<Marker>, leftIndex: int, medianIndex: int, rightIndex: int)
    requires buffer != a && buffer.Length == a.Length
    requires 0 <= leftIndex <= medianIndex < rightIndex < a.Length
    modifies buffer, a
    ensures a[..] == MergeAt(old(a[..]), leftIndex, medianIndex, rightIndex)
    ensures forall p :: 0 <= p < buffer.Length ==> buffer[p] == if leftIndex <= p <= rightIndex then old(a[p]) else old(buffer[p])
  {
    ArrayCopy(a, leftIndex, buffer, leftIndex, rightIndex + 1 - leftIndex);
    MergeRunIsMergeAt(a[..], buffer[..], leftIndex, medianIndex, rightIndex);
    MergeBack(buffer, a, leftIndex, medianIndex, rightIndex);
  }

  /// The loop of Merge: the two runs, read from the buffer, merged into
  /// [leftIndex, rightIndex] of `a`.
  method MergeBack(buffer: array<Marker>, a: array<Marker>, leftIndex: int, medianIndex: int, rightIndex: int)
    requires buffer != a && buffer.Length == a.Length
    requires 0 <= leftIndex <= medianIndex < rightIndex < a.Length
    modifies a
    ensures a[..] == old(a[..leftIndex]) + MergeRun(buffer[..], leftIndex, medianIndex, medianIndex + 1, rightIndex, [])
      + old(a[rightIndex + 1..])
  {
    ghost var s0 := a[..];
    ghost var b := buffer[..];
    ghost var merged := MergeRun(b, leftIndex, medianIndex, medianIndex + 1, rightIndex, []);
    ghost var out: seq<Marker> := [];
    var i, j := leftIndex, medianIndex + 1;
    var k := leftIndex;
    while k <= rightIndex
      invariant leftIndex <= i <= medianIndex + 1 <= j <= rightIndex + 1
      invariant k == i + j - medianIndex - 1 && |out| == k - leftIndex
      invariant forall p :: 0 <= p < leftIndex || k <= p < a.Length ==> a[p] == s0[p]
      invariant forall p :: leftIndex <= p < k ==> a[p] == out[p - leftIndex]
      invariant MergeRun(b, i, medianIndex, j, rightIndex, out) == merged
      decreases rightIndex + 1 - k
    {
      var item;
      ghost var i0, j0 := i, j;
      if i > medianIndex {
        item := buffer[j];
        j := j + 1;
      } else if j > rightIndex {
        item := buffer[i];
        i := i + 1;
      } else if Compare(buffer[j].value, buffer[i].value) {
        item := buffer[j];
        j := j + 1;
      } else {
        item := buffer[i];
        i := i + 1;
      }
      MergeRunStep(b, i0, medianIndex, j0, rightIndex, out, i, j, item);
      a[k] := item;
      out := out + [item];
      k := k + 1;
    }
    assert a[..] == s0[..leftIndex] + out + s0[rightIndex + 1..];
  }

  /// The loop of Merge on the buffer's contents `b`, with the left run
  /// taken up to i, the right run up to j, and `out` written so far: the
  /// right head is taken when the left run is used up or when the right
  /// head belongs before the left head, the left head otherwise.
  ghost function MergeRun(b: seq<Marker>, i: int, m: int, j: int, r: int, out: seq<Marker>): (merged: seq<Marker>)
    requires 0 <= i <= m + 1 <= j <= r + 1 <= |b|
    decreases (m + 1 - i) + (r + 1 - j)
  {
    if i > m && j > r then out
    else if i > m then MergeRun(b, i, m, j + 1, r, out + [b[j]])
    else if j > r then MergeRun(b, i + 1, m, j, r, out + [b[i]])
    else if Compare(b[j].value, b[i].value) then MergeRun(b, i, m, j + 1, r, out + [b[j]])
    else MergeRun(b, i + 1, m, j, r, out + [b[i]])
  }

  /// One step of the Merge loop: the right head is taken when the left run
  /// is used up or when the right head belongs before the left head, the
  /// left head otherwise.
  lemma MergeRunStep(b: seq<Marker>, i: int, m: int, j: int, r: int, out: seq<Marker>, i': int, j': int, item: Marker)
    requires 0 <= i <= m + 1 <= j <= r + 1 <= |b| && (i <= m || j <= r)
    requires if i > m || (j <= r && Compare(b[j].value, b[i].value)) then i' == i && j' == j + 1 && item == b[j]
      else i' == i + 1 && j' == j && item == b[i]
    ensures 0 <= i' <= m + 1 <= j' <= r + 1
    ensures MergeRun(b, i, m, j, r, out) == MergeRun(b, i', m, j', r, out + [item])
  {
  }

  /// The loop ends with what it wrote followed by the merge of what was
  /// left of the two runs.
  lemma {:induction false} MergeRunMerges(b: seq<Marker>, i: int, m: int, j: int, r: int, out: seq<Marker>)
    requires 0 <= i <= m + 1 <= j <= r + 1 <= |b|
    ensures MergeRun(b, i, m, j, r, out) == out + Merged(b[i..m + 1], b[j..r + 1])
    decreases (m + 1 - i) + (r + 1 - j)
  {
    if i > m && j > r {
      assert b[i..m + 1] == [] && b[j..r + 1] == [];
    } else if i > m || (j <= r && Compare(b[j].value, b[i].value)) {
      MergeRunMerges(b, i, m, j + 1, r, out + [b[j]]);
      RightHeadMerges(b, i, m, j, r, out);
    } else {
      MergeRunMerges(b, i + 1, m, j, r, out + [b[i]]);
      LeftHeadMerges(b, i, m, j, r, out);
    }
  }

  /// Taking the right head first is what Merged does when the left run is
  /// empty or the right head belongs before the left head ...
  lemma RightHeadMerges(b: seq<Marker>, i: int, m: int, j: int, r: int, out: seq<Marker>)
    requires 0 <= i <= m + 1 <= j <= r < |b|
    requires i > m || Compare(b[j].value, b[i].value)
    ensures (out + [b[j]]) + Merged(b[i..m + 1], b[j + 1..r + 1]) == out + Merged(b[i..m + 1], b[j..r + 1])
  {
    var left, right := b[i..m + 1], b[j..r + 1];
    assert right[1..] == b[j + 1..r + 1];
    assert Merged(left, right) == [b[j]] + Merged(left, b[j + 1..r + 1]);
  }

  /// ... and taking the left head first is what it does otherwise.
  lemma LeftHeadMerges(b: seq<Marker>, i: int, m: int, j: int, r: int, out: seq<Marker>)
    requires 0 <= i <= m < j <= r + 1 <= |b|
    requires !(j <= r && Compare(b[j].value, b[i].value))
    ensures (out + [b[i]]) + Merged(b[i + 1..m + 1], b[j..r + 1]) == out + Merged(b[i..m + 1], b[j..r + 1])
  {
    var left, right := b[i..m + 1], b[j..r + 1];
    assert left[1..] == b[i + 1..m + 1];
    assert Merged(left, right) == [b[i]] + Merged(b[i + 1..m + 1], right);
  }

  /// The loop of Merge run from the start writes MergeAt's merge, once the
  /// buffer holds the two runs.
  lemma MergeRunIsMergeAt(s0: seq<Marker>, b: seq<Marker>, l: int, m: int, r: int)
    requires 0 <= l <= m < r < |s0| == |b|
    requires forall p :: l <= p <= r ==> b[p] == s0[p]
    ensures s0[..l] + MergeRun(b, l, m, m + 1, r, []) + s0[r + 1..] == MergeAt(s0, l, m, r)
  {
    assert MergeRun(b, l, m, m + 1, r, []) == Merged(s0[l..m + 1], s0[m + 1..r + 1]) by {
      assert b[l..m + 1] == s0[l..m + 1];
      assert b[m + 1..r + 1] == s0[m + 1..r + 1];
      MergeRunMerges(b, l, m, m + 1, r, []);
      assert [] + Merged(b[l..m + 1], b[m + 1..r + 1]) == Merged(b[l..m + 1], b[m + 1..r + 1]);
    }
  }

  /// HybridSort.Sort: a null array fails the argument check; any other
  /// array is left in the order HybridSorted gives.
  method Sort(a: array?<Marker>) returns (r: Outcome<GuardError>)
    modifies a
    ensures r == ArgumentNotNull(a, null, "array")
    ensures a != null ==> a[..] == HybridSorted(old(a[..]))
  {
    r := ArgumentNotNull(a, null, "array");
    if r.Fail? {
      return;
    }
    var length := a.Length;
    if length <= 1 {
      return;
    }
    if length <= MaxCapacityForShell {
      ShellSort(a, 0, length);
    } else {
      ShellSortChunks(a);
      var buffer := new Marker[length];
      MergeRuns(a, buffer);
    }
  }

  /// The first phase of Sort on a long array: every chunk of ChunkSize
  /// items Shell-sorted in turn.
  method ShellSortChunks(a: array<Marker>)
    modifies a
    ensures a[..] == ChunkSorts(old(a[..]), 0)
  {
    var length := a.Length;
    ghost var target := ChunkSorts(a[..], 0);
    var i := 0;
    while i < length
      invariant 0 <= i
      invariant ChunkSorts(a[..], i) == target
      decreases length - i
    {
      ShellSortChunk(a, i, target);
      i := i + ChunkSize;
    }
    ChunkSortsDone(a[..], i);
  }

  /// One turn of the chunk loop: the chunk at i Shell-sorted, which leaves
  /// the chunk sorts from i + ChunkSize to do.
  method ShellSortChunk(a: array<Marker>, i: int, ghost target: seq<Marker>)
    requires 0 <= i < a.Length && ChunkSorts(a[..], i) == target
    modifies a
    ensures ChunkSorts(a[..], i + ChunkSize) == target
  {
    ChunkSortsUnfold(a[..], i);
    ShellSort(a, i, Min(ChunkSize, a.Length - i));
  }

  /// The second phase of Sort: merge passes of width 1, 2, 4, ... through
  /// the buffer while the width is below the length.
  method MergeRuns(a: array<Marker>, buffer: array<Marker>)
    requires buffer != a && buffer.Length == a.Length
    modifies a, buffer
    ensures a[..] == MergePasses(old(a[..]), 1)
  {
    var length := a.Length;
    ghost var target := MergePasses(a[..], 1);
    var size := 1;
    while size < length
      invariant 1 <= size
      invariant MergePasses(a[..], size) == target
      decreases length - size
    {
      MergePassOf(a, buffer, size, target);
      size := size + size;
    }
    MergePassesDone(a[..], size);
  }

  /// One merge pass of width `size`, which leaves the passes from width
  /// 2 * size to do.
  method MergePassOf(a: array<Marker>, buffer: array<Marker>, size: int, ghost target: seq<Marker>)
    requires buffer != a && buffer.Length == a.Length && 1 <= size < a.Length
    requires MergePasses(a[..], size) == target
    modifies a, buffer
    ensures MergePasses(a[..], size + size) == target
  {
    ghost var pass := MergePass(a[..], size, 0);
    MergePassesUnfold(a[..], size);
    MergeNeighbours(a, buffer, size, pass);
  }

  /// The loop of a merge pass: every two neighbouring runs of `size` items
  /// merged, from the start.
  method MergeNeighbours(a: array<Marker>, buffer: array<Marker>, size: int, ghost pass: seq<Marker>)
    requires buffer != a && buffer.Length == a.Length && 1 <= size
    requires MergePass(a[..], size, 0) == pass
    modifies a, buffer
    ensures a[..] == pass
  {
    var length := a.Length;
    var index := 0;
    while index < length - size
      invariant 0 <= index
      invariant MergePass(a[..], size, index) == pass
      decreases length - index
    {
      MergePairAt(a, buffer, size, index, pass);
      index := index + size + size;
    }
    MergePassDone(a[..], size, index);
  }

  /// One turn of the merge pass loop: the rest of the pass still reaches
  /// the same result after the pair of runs at index is merged.
  method MergePairAt(a: array<Marker>, buffer: array<Marker>, size: int, index: int, ghost pass: seq<Marker>)
    requires buffer != a && buffer.Length == a.Length && 1 <= size && 0 <= index < a.Length - size
    requires MergePass(a[..], size, index) == pass
    modifies a, buffer
    ensures MergePass(a[..], size, index + size + size) == pass
  {
    ghost var before := a[..];
    MergePassUnfold(before, size, index);
    MergeNext(a, buffer, size, index);
    MergePassAfter(a[..], before, size, index, pass);
  }

  /// The run at index merged with the run after it.
  method MergeNext(a: array<Marker>, buffer: array<Marker>, size: int, index: int)
    requires buffer != a && buffer.Length == a.Length && 1 <= size && 0 <= index < a.Length - size
    modifies a, buffer
    ensures a[..] == MergeStep(old(a[..]), size, index)
  {
    Merge(buffer, a, index, index + size - 1, Min(index + size + size - 1, a.Length - 1));
  }

  /// After one merge step, the rest of the pass from the next pair of runs
  /// still reaches the same result.
  lemma MergePassAfter(t: seq<Marker>, s: seq<Marker>, size: int, index: int, pass: seq<Marker>)
    requires 1 <= size && 0 <= index < |s| - size
    requires MergePass(MergeStep(s, size, index), size, index + size + size) == pass
    requires t == MergeStep(s, size, index)
    ensures MergePass(t, size, index + size + size) == pass
  {
  }

  /// The chunk sorts from i are the chunk at i sorted, then the rest.
  lemma ChunkSortsUnfold(s: seq<Marker>, i: int)
    requires 0 <= i < |s|
    ensures ChunkSorts(s, i) == ChunkSorts(ChunkSort(s, i), i + ChunkSize)
  {
  }

  /// The merge passes from width `size` are the pass of that width, then
  /// the rest.
  lemma MergePassesUnfold(s: seq<Marker>, size: int)
    requires 1 <= size < |s|
    ensures MergePasses(s, size) == MergePasses(MergePass(s, size, 0), size + size)
  {
  }

  /// A merge pass from `index` is the merge at `index`, then the rest.
  lemma MergePassUnfold(s: seq<Marker>, size: int, index: int)
    requires 1 <= size && 0 <= index < |s| - size
    ensures MergePass(s, size, index) == MergePass(MergeStep(s, size, index), size, index + size + size)
  {
  }

  /// Past the end there is no chunk left to sort.
  lemma ChunkSortsDone(s: seq<Marker>, i: int)
    requires |s| <= i
    ensures ChunkSorts(s, i) == s
  {
  }

  /// A merge pass has nothing left to merge once no second run starts
  /// before the end.
  lemma MergePassDone(s: seq<Marker>, size: int, index: int)
    requires 1 <= size && 0 <= index && |s| - size <= index
    ensures MergePass(s, size, index) == s
  {
  }

  /// The merge passes stop once the width reaches the length.
  lemma MergePassesDone(s: seq<Marker>, size: int)
    requires 1 <= size && |s| <= size
    ensures MergePasses(s, size) == s
  {
  }
}
