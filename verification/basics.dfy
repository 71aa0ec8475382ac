// Vocabulary shared by several modules.

module Basics {

  type byte = x: int | 0 <= x < 256

  function Min(a: nat, b: nat): nat { if a <= b then a else b }

  /** The text stands in s at p. */
  predicate Stands<T(==)>(s: seq<T>, p: nat, text: seq<T>) { p + |text| <= |s| && s[p..p + |text|] == text }

  lemma StandsApart<T>(s: seq<T>, p: nat, first: seq<T>, second: seq<T>)
    requires Stands(s, p, first + second)
    ensures p + |first| + |second| <= |s|
    ensures Stands(s, p, first) && Stands(s, p + |first|, second)
    ensures forall i :: 0 <= i < |first| ==> s[p + i] == first[i]
  {
    var text := first + second;
    assert s[p..p + |first|] == text[..|first|] == first;
    assert s[p + |first|..p + |text|] == text[|first|..] == second;
    forall i | 0 <= i < |first| ensures s[p + i] == first[i] {
      assert s[p..p + |first|][i] == first[i];
    }
  }

  lemma StandsStart<T>(s: seq<T>, p: nat, text: seq<T>)
    requires Stands(s, p, text)
    ensures p + |text| <= |s| && (text != [] ==> s[p] == text[0])
  {
    if text != [] {
      assert s[p..p + |text|][0] == text[0];
    }
  }
}
