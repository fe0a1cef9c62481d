/// The LINQ operators the engine uses: Union with a key-based equality
/// comparer, and Where.
module Enumerable {

  /// The keys of the elements of `xs`.
  ghost function KeysOf<T>(xs: seq<T>, key: T -> int): set<int> {
    set x | x in xs :: key(x)
  }

  /// No two elements of `xs` have the same key.
  predicate DistinctKeys<T>(xs: seq<T>, key: T -> int) {
    forall i, j :: 0 <= i < j < |xs| ==> key(xs[i]) != key(xs[j])
  }

  /// The elements of `xs` in order, skipping each one whose key is in `seen`
  /// or was already yielded.
  function DistinctFrom<T>(xs: seq<T>, key: T -> int, seen: set<int>): (ys: seq<T>)
    ensures forall i :: 0 <= i < |ys| ==> ys[i] in xs && key(ys[i]) !in seen
    ensures DistinctKeys(ys, key)
    decreases |xs|
  {
    if |xs| == 0 then []
    else if key(xs[0]) in seen then DistinctFrom(xs[1..], key, seen)
    else [xs[0]] + DistinctFrom(xs[1..], key, seen + {key(xs[0])})
  }

  /// Enumerable.Union(first, second, comparer) for a comparer that compares
  /// `key`s: first then second, each key yielded once, by its first element.
  function Union<T>(first: seq<T>, second: seq<T>, key: T -> int): seq<T> {
    DistinctFrom(first + second, key, {})
  }

  /// Enumerable.Where: the elements satisfying `p`, in order.
  function Where<T>(xs: seq<T>, p: T -> bool): (ys: seq<T>)
    ensures forall i :: 0 <= i < |ys| ==> ys[i] in xs && p(ys[i])
    ensures forall i :: 0 <= i < |xs| && p(xs[i]) ==> xs[i] in ys
    ensures |ys| <= |xs|
  {
    if |xs| == 0 then [] else (if p(xs[0]) then [xs[0]] else []) + Where(xs[1..], p)
  }

  /// Where keeps the order: it distributes over concatenation.
  lemma {:induction false} WhereAppend<T>(a: seq<T>, b: seq<T>, p: T -> bool)
    ensures Where(a + b, p) == Where(a, p) + Where(b, p)
  {
    if |a| > 0 {
      assert (a + b)[1..] == a[1..] + b;
      WhereAppend(a[1..], b, p);
    } else {
      assert a + b == b;
    }
  }

  /// No key is lost: every key of the input that is not in `seen` is a key of
  /// the output.
  lemma {:induction false} DistinctFromKeepsKeys<T>(xs: seq<T>, key: T -> int, seen: set<int>)
    ensures KeysOf(DistinctFrom(xs, key, seen), key) == KeysOf(xs, key) - seen
    decreases |xs|
  {
    if |xs| > 0 {
      var x := xs[0];
      assert KeysOf(xs, key) == {key(x)} + KeysOf(xs[1..], key) by {
        assert xs == [x] + xs[1..];
      }
      if key(x) in seen {
        DistinctFromKeepsKeys(xs[1..], key, seen);
      } else {
        var rest := DistinctFrom(xs[1..], key, seen + {key(x)});
        DistinctFromKeepsKeys(xs[1..], key, seen + {key(x)});
        assert KeysOf([x] + rest, key) == {key(x)} + KeysOf(rest, key);
      }
    }
  }

  /// Union never loses a key: every key of either input is the key of some
  /// element of the union, and the union has no other keys.
  lemma UnionKeepsKeys<T>(first: seq<T>, second: seq<T>, key: T -> int)
    ensures KeysOf(Union(first, second, key), key) == KeysOf(first, key) + KeysOf(second, key)
  {
    DistinctFromKeepsKeys(first + second, key, {});
    assert KeysOf(first + second, key) == KeysOf(first, key) + KeysOf(second, key) by {
      forall x | x in first + second ensures x in first || x in second { }
    }
  }

  /// Deduplicating a concatenation deduplicates the second part against the
  /// keys of the first.
  lemma {:induction false} DistinctFromAppend<T>(a: seq<T>, b: seq<T>, key: T -> int, seen: set<int>)
    ensures DistinctFrom(a + b, key, seen) == DistinctFrom(a, key, seen) + DistinctFrom(b, key, seen + KeysOf(a, key))
    decreases |a|
  {
    if |a| == 0 {
      assert a + b == b;
      assert KeysOf(a, key) == {};
      assert seen + KeysOf(a, key) == seen;
      assert DistinctFrom(a, key, seen) == [];
    } else {
      var x := a[0];
      assert (a + b)[0] == x && (a + b)[1..] == a[1..] + b;
      assert KeysOf(a, key) == {key(x)} + KeysOf(a[1..], key) by {
        assert a == [x] + a[1..];
      }
      if key(x) in seen {
        DistinctFromAppend(a[1..], b, key, seen);
        assert seen + KeysOf(a[1..], key) == seen + KeysOf(a, key);
      } else {
        DistinctFromAppend(a[1..], b, key, seen + {key(x)});
        assert seen + {key(x)} + KeysOf(a[1..], key) == seen + KeysOf(a, key);
      }
    }
  }

  /// An input whose keys are distinct and unseen passes through unchanged.
  lemma {:induction false} DistinctFromIdentity<T>(xs: seq<T>, key: T -> int, seen: set<int>)
    requires DistinctKeys(xs, key)
    requires forall x :: x in xs ==> key(x) !in seen
    ensures DistinctFrom(xs, key, seen) == xs
    decreases |xs|
  {
    if |xs| > 0 {
      forall y | y in xs[1..] ensures key(y) !in seen + {key(xs[0])} {
        var j :| 0 <= j < |xs[1..]| && xs[1..][j] == y;
        assert xs[j + 1] == y;
      }
      DistinctFromIdentity(xs[1..], key, seen + {key(xs[0])});
    }
  }

  /// An input whose keys are distinct loses exactly the elements whose keys
  /// are in `seen`.
  lemma {:induction false} DistinctFromFilters<T>(xs: seq<T>, key: T -> int, seen: set<int>)
    requires DistinctKeys(xs, key)
    ensures DistinctFrom(xs, key, seen) == Where(xs, x => key(x) !in seen)
    decreases |xs|
  {
    if |xs| > 0 {
      var x := xs[0];
      if key(x) in seen {
        DistinctFromFilters(xs[1..], key, seen);
      } else {
        DistinctFromFilters(xs[1..], key, seen + {key(x)});
        assert Where(xs[1..], y => key(y) !in seen + {key(x)}) == Where(xs[1..], y => key(y) !in seen) by {
          forall y | y in xs[1..] ensures key(y) != key(x) {
            var j :| 0 <= j < |xs[1..]| && xs[1..][j] == y;
            assert xs[j + 1] == y;
          }
          WhereSameOn(xs[1..], y => key(y) !in seen + {key(x)}, y => key(y) !in seen);
        }
      }
    }
  }

  /// Where depends only on the values of the predicate on the input.
  lemma {:induction false} WhereSameOn<T>(xs: seq<T>, p: T -> bool, q: T -> bool)
    requires forall x :: x in xs ==> p(x) == q(x)
    ensures Where(xs, p) == Where(xs, q)
    decreases |xs|
  {
    if |xs| > 0 {
      WhereSameOn(xs[1..], p, q);
    }
  }

  /// Union of two inputs with distinct keys each: all of `first`, then the
  /// elements of `second` whose keys `first` does not have, in their order.
  lemma UnionOfDistinct<T>(first: seq<T>, second: seq<T>, key: T -> int)
    requires DistinctKeys(first, key) && DistinctKeys(second, key)
    ensures Union(first, second, key) == first + Where(second, x => key(x) !in KeysOf(first, key))
  {
    DistinctFromAppend(first, second, key, {});
    DistinctFromIdentity(first, key, {});
    assert {} + KeysOf(first, key) == KeysOf(first, key);
    DistinctFromFilters(second, key, KeysOf(first, key));
  }

  /// Inputs with distinct keys and no shared key unite to their
  /// concatenation.
  lemma UnionOfDisjoint<T>(first: seq<T>, second: seq<T>, key: T -> int)
    requires DistinctKeys(first, key) && DistinctKeys(second, key)
    requires forall i, j :: 0 <= i < |first| && 0 <= j < |second| ==> key(first[i]) != key(second[j])
    ensures Union(first, second, key) == first + second
  {
    var both := first + second;
    forall i, j | 0 <= i < j < |both| ensures key(both[i]) != key(both[j]) {
      if j < |first| {
        assert both[i] == first[i] && both[j] == first[j];
      } else if i >= |first| {
        assert both[i] == second[i - |first|] && both[j] == second[j - |first|];
      } else {
        assert both[i] == first[i] && both[j] == second[j - |first|];
      }
    }
    DistinctFromIdentity(both, key, {});
  }

  /// An element occurs at most once in an input with distinct keys.
  lemma {:induction false} OccursAtMostOnce<T>(xs: seq<T>, key: T -> int, x: T)
    requires DistinctKeys(xs, key)
    ensures multiset(xs)[x] <= 1
    decreases |xs|
  {
    if |xs| > 0 {
      assert xs == [xs[0]] + xs[1..];
      assert DistinctKeys(xs[1..], key) by {
        forall i, j | 0 <= i < j < |xs[1..]| ensures key(xs[1..][i]) != key(xs[1..][j]) {
          assert xs[1..][i] == xs[i + 1] && xs[1..][j] == xs[j + 1];
        }
      }
      OccursAtMostOnce(xs[1..], key, x);
      if x == xs[0] {
        assert x !in xs[1..] by {
          forall j | 0 <= j < |xs[1..]| ensures xs[1..][j] != xs[0] {
            assert key(xs[0]) != key(xs[j + 1]);
          }
        }
      }
    }
  }

  /// An element at two positions of `xs` occurs at least twice.
  lemma OccursTwice<T>(xs: seq<T>, i: int, j: int)
    requires 0 <= i < j < |xs| && xs[i] == xs[j]
    ensures multiset(xs)[xs[i]] >= 2
  {
    assert xs == xs[..j] + xs[j..];
    assert xs[i] in xs[..j];
    assert xs[j] == xs[j..][0];
    assert multiset(xs) == multiset(xs[..j]) + multiset(xs[j..]);
  }

  /// A permutation of an input with distinct keys has distinct keys.
  lemma PermutedDistinctKeys<T>(xs: seq<T>, ys: seq<T>, key: T -> int)
    requires multiset(xs) == multiset(ys) && DistinctKeys(xs, key)
    ensures DistinctKeys(ys, key)
  {
    forall i, j | 0 <= i < j < |ys| ensures key(ys[i]) != key(ys[j]) {
      if ys[i] == ys[j] {
        OccursTwice(ys, i, j);
        OccursAtMostOnce(xs, key, ys[i]);
      } else {
        assert ys[i] in multiset(xs) && ys[j] in multiset(xs);
        var p :| 0 <= p < |xs| && xs[p] == ys[i];
        var q :| 0 <= q < |xs| && xs[q] == ys[j];
        assert p != q;
      }
    }
  }
}
