/** `equals_string` of the DLL injector, which compares two UTF-16 process
    names. It compares only the common prefix, so it is prefix-compatibility,
    not equality. */
module Injector {
  import opened Base

  /** The two strings agree at every index both of them have. */
  predicate AgreeBelow(first: seq<u16>, second: seq<u16>) {
    forall i :: 0 <= i < Min(|first|, |second|) ==> first[i] == second[i]
  }

  /** `equals_string`: scan the common length, failing at the first
      difference. */
  method EqualsString(first: seq<u16>, second: seq<u16>) returns (b: bool)
    ensures b <==> AgreeBelow(first, second)
  {
    var minLength := Min(|first|, |second|);
    for i := 0 to minLength
      invariant forall j :: 0 <= j < i ==> first[j] == second[j]
    {
      if first[i] != second[i] {
        return false;
      }
    }
    return true;
  }

  /** Agreement on the common length is exactly "one is a prefix of the
      other". */
  lemma AgreeBelowIffPrefix(first: seq<u16>, second: seq<u16>)
    ensures AgreeBelow(first, second) <==> first <= second || second <= first
  {
    if AgreeBelow(first, second) {
      if |first| <= |second| {
        assert first == second[..|first|];
      } else {
        assert second == first[..|second|];
      }
    }
  }

  lemma AgreeBelowSymmetric(first: seq<u16>, second: seq<u16>)
    ensures AgreeBelow(first, second) <==> AgreeBelow(second, first)
  {
  }

  lemma AgreeBelowReflexive(s: seq<u16>)
    ensures AgreeBelow(s, s)
  {
  }

  /** An empty name matches every name. */
  lemma EmptyAgrees(s: seq<u16>)
    ensures AgreeBelow([], s) && AgreeBelow(s, [])
  {
  }

  /** Strings of different lengths can be "equal": `equals_string` is not
      equality. */
  lemma NotEquality()
    ensures var a: seq<u16> := [0x61];
            var b: seq<u16> := [0x61, 0x62];
            a != b && AgreeBelow(a, b)
  {
  }
}
