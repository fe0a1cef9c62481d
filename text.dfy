/// The members of .NET's System.String and System.Char that the engine relies
/// on, with ordinal (code-unit by code-unit) semantics. A .NET string that may
/// be null is an Option<string>.
module Text {
  import opened Wrappers

  /// char.IsWhiteSpace: the Unicode space, line and paragraph separators and
  /// the control characters U+0009..U+000D and U+0085.
  predicate IsWhiteSpace(c: char) {
    var k := c as int;
    (0x09 <= k <= 0x0D) || k == 0x20 || k == 0x85 || k == 0xA0 || k == 0x1680
    || (0x2000 <= k <= 0x200A) || k == 0x2028 || k == 0x2029 || k == 0x202F
    || k == 0x205F || k == 0x3000
  }

  /// Every character of `s` is white space (vacuously so for "").
  predicate IsBlank(s: string) {
    forall k :: 0 <= k < |s| ==> IsWhiteSpace(s[k])
  }

  /// string.IsNullOrWhiteSpace.
  predicate IsNullOrWhiteSpace(s: Option<string>) {
    s.None? || IsBlank(s.value)
  }

  /// String.IndexOf(c): the first index of `c` in `s`, or -1.
  function IndexOf(s: string, c: char): (r: int)
    ensures -1 <= r < |s|
    ensures r == -1 <==> c !in s
    ensures r >= 0 ==> s[r] == c && forall k :: 0 <= k < r ==> s[k] != c
  {
    if |s| == 0 then -1
    else if s[0] == c then 0
    else
      var r := IndexOf(s[1..], c);
      if r < 0 then -1 else r + 1
  }

  /// String.StartsWith(prefix), ordinal.
  predicate StartsWith(s: string, prefix: string) {
    |prefix| <= |s| && s[..|prefix|] == prefix
  }

  /// String.EndsWith(suffix), ordinal.
  predicate EndsWith(s: string, suffix: string) {
    |suffix| <= |s| && s[|s| - |suffix|..] == suffix
  }

  /// `s` with every occurrence of `c` removed.
  function Without(s: string, c: char): string {
    if |s| == 0 then [] else (if s[0] == c then [] else [s[0]]) + Without(s[1..], c)
  }

  lemma {:induction false} WithoutAppend(a: string, b: string, c: char)
    ensures Without(a + b, c) == Without(a, c) + Without(b, c)
  {
    if |a| > 0 {
      assert (a + b)[1..] == a[1..] + b;
      WithoutAppend(a[1..], b, c);
    } else {
      assert a + b == b;
    }
  }

  /// The strings of `ss` one after another.
  function Concat(ss: seq<string>): string {
    if |ss| == 0 then [] else ss[0] + Concat(ss[1..])
  }

  lemma {:induction false} ConcatAppend(a: seq<string>, b: seq<string>)
    ensures Concat(a + b) == Concat(a) + Concat(b)
  {
    if |a| > 0 {
      assert (a + b)[1..] == a[1..] + b;
      ConcatAppend(a[1..], b);
    } else {
      assert a + b == b;
    }
  }

  /// String.Split(new[] { sep }, StringSplitOptions.RemoveEmptyEntries): the
  /// non-empty runs of characters other than `sep`, in order.
  function Split(s: string, sep: char): seq<string> {
    SplitFrom(s, sep, [])
  }

  /// Every token is non-empty and free of `sep`.
  lemma SplitTokens(s: string, sep: char)
    ensures forall t :: t in Split(s, sep) ==> |t| > 0 && sep !in t
  {
    SplitFromTokens(s, sep, []);
  }

  lemma {:induction false} SplitFromTokens(s: string, sep: char, run: string)
    requires sep !in run
    ensures forall t :: t in SplitFrom(s, sep, run) ==> |t| > 0 && sep !in t
    decreases |s|
  {
    if |s| > 0 {
      if s[0] == sep {
        SplitFromTokens(s[1..], sep, []);
      } else {
        SplitFromTokens(s[1..], sep, run + [s[0]]);
      }
    }
  }

  /// Split, scanning `s` with `run` the part of a token read so far.
  function SplitFrom(s: string, sep: char, run: string): (tokens: seq<string>)
    decreases |s|
  {
    if |s| == 0 then Flush(run)
    else if s[0] == sep then Flush(run) + SplitFrom(s[1..], sep, [])
    else SplitFrom(s[1..], sep, run + [s[0]])
  }

  /// The token collected so far, unless it is empty.
  function Flush(run: string): seq<string> {
    if |run| == 0 then [] else [run]
  }

  /// Splitting loses only the separators: the tokens put back together are
  /// the input without its `sep` characters.
  lemma SplitKeepsText(s: string, sep: char)
    ensures Concat(Split(s, sep)) == Without(s, sep)
  {
    SplitFromKeepsText(s, sep, []);
  }

  lemma {:induction false} SplitFromKeepsText(s: string, sep: char, run: string)
    ensures Concat(SplitFrom(s, sep, run)) == run + Without(s, sep)
    decreases |s|
  {
    if |s| == 0 {
      assert Concat(Flush(run)) == run + Without(s, sep) by {
        assert run + [] == run;
      }
    } else if s[0] == sep {
      SplitFromKeepsText(s[1..], sep, []);
      KeepsTextAtSeparator(s, sep, run);
    } else {
      SplitFromKeepsText(s[1..], sep, run + [s[0]]);
      assert run + [s[0]] + Without(s[1..], sep) == run + Without(s, sep) by {
        assert Without(s, sep) == [s[0]] + Without(s[1..], sep);
      }
    }
  }

  lemma KeepsTextAtSeparator(s: string, sep: char, run: string)
    requires |s| > 0 && s[0] == sep
    requires Concat(SplitFrom(s[1..], sep, [])) == Without(s[1..], sep)
    ensures Concat(SplitFrom(s, sep, run)) == run + Without(s, sep)
  {
    var rest := SplitFrom(s[1..], sep, []);
    assert Concat(Flush(run)) == run;
    ConcatAppend(Flush(run), rest);
  }

  /// Splitting at a separator splits the two sides independently: together
  /// with the single-token case this pins Split down completely.
  lemma SplitAtSeparator(a: string, b: string, sep: char)
    ensures Split(a + [sep] + b, sep) == Split(a, sep) + Split(b, sep)
  {
    SplitFromAtSeparator(a, b, sep, []);
  }

  lemma {:induction false} SplitFromAtSeparator(a: string, b: string, sep: char, run: string)
    requires sep !in run
    ensures SplitFrom(a + [sep] + b, sep, run) == SplitFrom(a, sep, run) + Split(b, sep)
    decreases |a|
  {
    var s := a + [sep] + b;
    if |a| == 0 {
      assert s[1..] == b;
    } else {
      assert s[0] == a[0] && s[1..] == a[1..] + [sep] + b;
      if a[0] == sep {
        SplitFromAtSeparator(a[1..], b, sep, []);
      } else {
        SplitFromAtSeparator(a[1..], b, sep, run + [a[0]]);
      }
    }
  }

  /// A non-empty string without `sep` is one token.
  lemma SplitSingle(s: string, sep: char)
    requires |s| > 0 && sep !in s
    ensures Split(s, sep) == [s]
  {
    SplitFromSingle(s, sep, []);
    assert [] + s == s;
  }

  lemma {:induction false} SplitFromSingle(s: string, sep: char, run: string)
    requires sep !in s && sep !in run
    ensures SplitFrom(s, sep, run) == Flush(run + s)
    decreases |s|
  {
    if |s| > 0 {
      SplitFromSingle(s[1..], sep, run + [s[0]]);
      assert run + [s[0]] + s[1..] == run + s;
    } else {
      assert run + s == run;
    }
  }

  /// String.TrimStart(c).
  function TrimStart(s: string, c: char): (r: string)
    ensures |r| <= |s| && r == s[|s| - |r|..]
    ensures forall k :: 0 <= k < |s| - |r| ==> s[k] == c
    ensures |r| > 0 ==> r[0] != c
  {
    if |s| > 0 && s[0] == c then TrimStart(s[1..], c) else s
  }

  /// String.TrimEnd(c).
  function TrimEnd(s: string, c: char): (r: string)
    ensures |r| <= |s| && r == s[..|r|]
    ensures forall k :: |r| <= k < |s| ==> s[k] == c
    ensures |r| > 0 ==> r[|r| - 1] != c
  {
    if |s| > 0 && s[|s| - 1] == c then TrimEnd(s[..|s| - 1], c) else s
  }

  /// String.Trim(c): leading and trailing `c` characters removed.
  function Trim(s: string, c: char): (r: string)
    ensures |r| <= |s|
    ensures |r| > 0 ==> r[0] != c && r[|r| - 1] != c
    ensures c !in s ==> r == s
  {
    TrimEnd(TrimStart(s, c), c)
  }

  /// How String.Substring(startIndex, length) rejects its arguments; the
  /// checks run in this order.
  datatype SubstringFault = StartIndexOutOfRange | NegativeLength | LengthOutOfRange

  /// String.Substring(startIndex, length).
  function Substring(s: string, startIndex: int, length: int): (r: Result<string, SubstringFault>)
    ensures r.Ok? <==> 0 <= startIndex && 0 <= length && startIndex + length <= |s|
    ensures r.Ok? ==> |r.value| == length && forall k :: 0 <= k < length ==> r.value[k] == s[startIndex + k]
    ensures 0 <= startIndex <= |s| && length < 0 ==> r == Err(NegativeLength)
  {
    if startIndex < 0 || startIndex > |s| then Err(StartIndexOutOfRange)
    else if length < 0 then Err(NegativeLength)
    else if startIndex > |s| - length then Err(LengthOutOfRange)
    else Ok(s[startIndex..startIndex + length])
  }
}
