/** `WindowsUnicode` for `String`: building the NUL-terminated UTF-16 buffer
    behind a `UNICODE_STRING` and reading one back. The same code appears in
    the user-mode utility crate and in the process driver's utilities.

    `to_unicode` widens each UTF-8 byte to one 16-bit unit; it does not
    decode. `RtlInitUnicodeString` is taken as documented: `Length` is the
    size in bytes of the units before the first NUL. */
module WindowsUnicode {
  import opened Base

  /** `UNICODE_STRING`: `Length` in bytes and the buffer it points at. */
  datatype UnicodeString = UnicodeString(length: nat, buffer: seq<u16>)

  /** Each byte zero-extended to a unit (`u16::from(byte)`). */
  function Widened(bytes: seq<u8>): (units: seq<u16>)
    ensures |units| == |bytes|
    ensures forall i :: 0 <= i < |bytes| ==> units[i] as int == bytes[i] as int
  {
    seq(|bytes|, i requires 0 <= i < |bytes| => bytes[i] as u16)
  }

  /** The buffer `to_unicode` fills: the widened bytes, then a 0 unit. */
  method ToUnicodeBuffer(bytes: seq<u8>) returns (buffer: seq<u16>)
    ensures |buffer| == |bytes| + 1 && buffer[|bytes|] == 0
    ensures forall i :: 0 <= i < |bytes| ==> buffer[i] as int == bytes[i] as int
    ensures buffer == Widened(bytes) + [0]
  {
    buffer := [];
    for i := 0 to |bytes|
      invariant buffer == Widened(bytes[..i])
    {
      assert bytes[..i + 1] == bytes[..i] + [bytes[i]];
      buffer := buffer + [bytes[i] as u16];
    }
    assert bytes[..|bytes|] == bytes;
    buffer := buffer + [0];
  }

  /** The index of the first 0 unit: the NUL a C-style scan stops at. */
  function FirstZero(units: seq<u16>): (k: nat)
    requires 0 in units
    ensures k < |units| && units[k] == 0
    ensures forall j :: 0 <= j < k ==> units[j] != 0
  {
    if units[0] == 0 then 0 else 1 + FirstZero(units[1..])
  }

  /** `RtlInitUnicodeString` on a NUL-terminated buffer. */
  function InitUnicodeString(buffer: seq<u16>): (u: UnicodeString)
    requires 0 in buffer
    ensures u.buffer == buffer && u.length % 2 == 0 && u.length / 2 <= |buffer|
  {
    UnicodeString(2 * FirstZero(buffer), buffer)
  }

  /** The units `from_unicode` reads: `Length / size_of::<u16>()` of them. */
  function FromUnicodeUnits(u: UnicodeString): (units: seq<u16>)
    requires u.length / 2 <= |u.buffer|
    ensures |units| == u.length / 2 && units <= u.buffer
  {
    u.buffer[..u.length / 2]
  }

  /** Round trip: for text without a NUL byte, reading back the string built
      by `to_unicode` gives the widened bytes. */
  lemma RoundTrip(bytes: seq<u8>)
    requires forall i :: 0 <= i < |bytes| ==> bytes[i] != 0
    ensures var buffer := Widened(bytes) + [0];
            FromUnicodeUnits(InitUnicodeString(buffer)) == Widened(bytes)
  {
    var buffer := Widened(bytes) + [0];
    assert buffer[|bytes|] == 0;
    assert buffer[..|bytes|] == Widened(bytes);
  }

  /** A NUL byte inside the text cuts it short: only the units before it are
      read back. */
  lemma InteriorNulTruncates(bytes: seq<u8>, k: nat)
    requires k < |bytes| && bytes[k] == 0
    requires forall i :: 0 <= i < k ==> bytes[i] != 0
    ensures var buffer := Widened(bytes) + [0];
            FromUnicodeUnits(InitUnicodeString(buffer)) == Widened(bytes[..k])
  {
    var buffer := Widened(bytes) + [0];
    assert buffer[k] as int == bytes[k] as int;
    var a, b := buffer[..k], Widened(bytes[..k]);
    assert |a| == |b|;
    forall i | 0 <= i < k ensures a[i] == b[i] {
      assert a[i] as int == bytes[i] as int;
    }
  }

  /** Widening is per byte: the two-byte UTF-8 form of U+00E9 becomes two
      units, not the single UTF-16 unit 0x00E9. */
  lemma WideningIsNotDecoding()
    ensures Widened([0xC3, 0xA9]) == [0x00C3, 0x00A9]
    ensures Widened([0xC3, 0xA9]) != [0x00E9]
  {
    var w := Widened([0xC3, 0xA9]);
    assert w[0] as int == 0xC3 && w[1] as int == 0xA9;
  }
}
