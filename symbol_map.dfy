/// The fixed alphabet of the bad-character table (Parsing/SearchEngine.cs,
/// the static constructor): printable Latin U+0020..U+007E and Cyrillic
/// U+0400..U+04FE, numbered consecutively from 0.
module SymbolMap {
  import opened Wrappers

  const RomanAlphabetCapacity: int := 95
  const CyrillicAlphabetCapacity: int := 255
  /// The number of entries of a bad-character table.
  const AlphabetSize: int := RomanAlphabetCapacity + CyrillicAlphabetCapacity

  /// The table slot of `c`, or None for a character outside the alphabet.
  function SymbolOf(c: char): (sym: Option<int>)
    ensures sym.Some? <==> (0x20 <= c as int < 0x7F) || (0x400 <= c as int < 0x4FF)
    ensures sym.Some? ==> 0 <= sym.value < AlphabetSize
    ensures sym.Some? ==> (sym.value < RomanAlphabetCapacity <==> c as int < 0x7F)
  {
    var k := c as int;
    if 0x20 <= k < 0x7F then Some(k - 0x20)
    else if 0x400 <= k < 0x4FF then Some(k - 0x400 + RomanAlphabetCapacity)
    else None
  }

  /// Distinct characters of the alphabet get distinct slots, so a slot
  /// stands for one character.
  lemma SymbolOfInjective(c: char, d: char)
    requires SymbolOf(c).Some? && SymbolOf(c) == SymbolOf(d)
    ensures c == d
  {
  }

  /// Every slot is taken: the alphabet fills the table exactly.
  lemma SymbolOfOnto(sym: int)
    requires 0 <= sym < AlphabetSize
    ensures exists c: char :: SymbolOf(c) == Some(sym)
  {
    if sym < RomanAlphabetCapacity {
      var c := (sym + 0x20) as char;
      assert SymbolOf(c) == Some(sym);
    } else {
      var c := (sym - RomanAlphabetCapacity + 0x400) as char;
      assert SymbolOf(c) == Some(sym);
    }
  }

  /// The static constructor: two counting loops that add each code of the
  /// alphabet with the next free slot. The dictionary it builds is SymbolOf.
  method BuildSymbolHash() returns (symbolHash: map<int, int>)
    ensures forall c: char :: SymbolOf(c) == (if c as int in symbolHash then Some(symbolHash[c as int]) else None)
    ensures forall k :: k in symbolHash ==> (0x20 <= k < 0x7F) || (0x400 <= k < 0x4FF)
  {
    symbolHash := map[];
    var i := 0;
    var j := 0x20;
    while j < 0x7F
      invariant 0x20 <= j <= 0x7F && i == j - 0x20
      invariant forall k :: k in symbolHash <==> 0x20 <= k < j
      invariant forall k :: k in symbolHash ==> symbolHash[k] == k - 0x20
    {
      assert j !in symbolHash;
      symbolHash := symbolHash[j := i];
      i := i + 1;
      j := j + 1;
    }
    j := 0x400;
    while j < 0x4FF
      invariant 0x400 <= j <= 0x4FF && i == j - 0x400 + RomanAlphabetCapacity
      invariant forall k :: k in symbolHash <==> (0x20 <= k < 0x7F) || (0x400 <= k < j)
      invariant forall k :: k in symbolHash ==> symbolHash[k] == (if k < 0x7F then k - 0x20 else k - 0x400 + RomanAlphabetCapacity)
    {
      assert j !in symbolHash;
      symbolHash := symbolHash[j := i];
      i := i + 1;
      j := j + 1;
    }
  }
}
