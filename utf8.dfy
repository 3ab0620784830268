/** UTF-8 well-formedness, as `std::str::from_utf8` checks it before the
    sorter splits the mapped file into lines. The byte patterns are those of
    Table 3-7 ("Well-Formed UTF-8 Byte Sequences") of the Unicode Standard. */
module Utf8 {
  import opened Base

  /** A continuation byte, 80..BF. */
  predicate Cont(b: u8) { 0x80 <= b <= 0xBF }

  /** The length of the well-formed UTF-8 sequence that `s` starts with, or 0
      when `s` does not start with one. */
  function SequenceLength(s: seq<u8>): (n: nat)
    ensures n <= |s| && n <= 4
    ensures n > 0 ==> forall i :: 0 < i < n ==> Cont(s[i])
  {
    if |s| == 0 then 0
    else if s[0] <= 0x7F then 1
    else if 0xC2 <= s[0] <= 0xDF then
      (if |s| >= 2 && Cont(s[1]) then 2 else 0)
    else if s[0] == 0xE0 then
      (if |s| >= 3 && 0xA0 <= s[1] <= 0xBF && Cont(s[2]) then 3 else 0)
    else if (0xE1 <= s[0] <= 0xEC) || (0xEE <= s[0] <= 0xEF) then
      (if |s| >= 3 && Cont(s[1]) && Cont(s[2]) then 3 else 0)
    else if s[0] == 0xED then
      (if |s| >= 3 && 0x80 <= s[1] <= 0x9F && Cont(s[2]) then 3 else 0)
    else if s[0] == 0xF0 then
      (if |s| >= 4 && 0x90 <= s[1] <= 0xBF && Cont(s[2]) && Cont(s[3]) then 4 else 0)
    else if 0xF1 <= s[0] <= 0xF3 then
      (if |s| >= 4 && Cont(s[1]) && Cont(s[2]) && Cont(s[3]) then 4 else 0)
    else if s[0] == 0xF4 then
      (if |s| >= 4 && 0x80 <= s[1] <= 0x8F && Cont(s[2]) && Cont(s[3]) then 4 else 0)
    else 0
  }

  /** `s` is a concatenation of well-formed UTF-8 sequences. */
  predicate ValidUtf8(s: seq<u8>)
    decreases |s|
  {
    |s| == 0 || (SequenceLength(s) > 0 && ValidUtf8(s[SequenceLength(s)..]))
  }

  /** The length of a well-formed sequence is fixed by its own bytes. */
  lemma SequenceLengthOfPrefix(s: seq<u8>, k: nat)
    requires 0 < SequenceLength(s) <= k <= |s|
    ensures SequenceLength(s[..k]) == SequenceLength(s)
  {
  }

  /** Plain ASCII text is valid UTF-8. */
  lemma {:induction false} AsciiIsValid(s: seq<u8>)
    requires forall i :: 0 <= i < |s| ==> s[i] < 0x80
    ensures ValidUtf8(s)
    decreases |s|
  {
    if |s| > 0 {
      assert SequenceLength(s) == 1;
      AsciiIsValid(s[1..]);
    }
  }

  /** An ASCII byte (such as '\n') never sits inside a multi-byte sequence, so
      cutting valid text at one leaves valid text on both sides: every piece
      `str::split` returns is itself a `str`. */
  lemma {:induction false} CutAtAscii(s: seq<u8>, k: nat)
    requires ValidUtf8(s)
    requires k < |s| && s[k] < 0x80
    ensures ValidUtf8(s[..k]) && ValidUtf8(s[k..])
    decreases |s|
  {
    var n := SequenceLength(s);
    if k == 0 {
      assert s[..k] == [] && s[k..] == s;
    } else if k < n {
      assert false;
    } else {
      var t := s[n..];
      assert t[k - n] == s[k];
      CutAtAscii(t, k - n);
      assert t[k - n..] == s[k..];
      SequenceLengthOfPrefix(s, k);
      assert s[..k][n..] == t[..k - n];
    }
  }

  /** Removing an ASCII byte from valid text leaves valid text on both sides. */
  lemma SplitAtAscii(s: seq<u8>, k: nat)
    requires ValidUtf8(s)
    requires k < |s| && s[k] < 0x80
    ensures ValidUtf8(s[..k]) && ValidUtf8(s[k + 1..])
  {
    CutAtAscii(s, k);
    var t := s[k..];
    assert SequenceLength(t) == 1;
    assert t[1..] == s[k + 1..];
  }
}
