/** The string search-and-replace library: find a byte string in a committed,
    writable memory region of a process and overwrite it in place.

    Process memory is an array of bytes and a pointer into it is an index. A
    null pointer is `None`. Walking the regions of a foreign process
    (`find_string`, with `VirtualQueryEx`) is not modelled: `Replace` takes the
    slice it would have returned as an input. */
module StringReplace {
  import opened Base

  /** `SearchResult`, returned as an `INT`. */
  const FOUND: int := 0
  const NOT_FOUND: int := 1
  const INVALID_PARAMS: int := 2
  const INVALID_STRING_VALUES: int := 3

  /** Page protection and state constants of the Windows memory manager. */
  const PAGE_READONLY: bv32 := 0x02
  const PAGE_READWRITE: bv32 := 0x04
  const PAGE_EXECUTE_READWRITE: bv32 := 0x40
  const PAGE_GUARD: bv32 := 0x100
  const MEM_COMMIT: bv32 := 0x1000

  /** `MAX_STRING_SIZE`. */
  const MAX_STRING_SIZE: nat := 255

  /** The two fields of `MEMORY_BASIC_INFORMATION` the library looks at. */
  datatype MemoryInfo = MemoryInfo(state: bv32, protect: bv32)

  /** `StringSearchParams`: the two C strings are given by their bytes before
      the terminating NUL; the process handle only matters for being null. */
  datatype StringSearchParams = StringSearchParams(
    process: Option<nat>,
    search: Option<seq<u8>>, searchLen: nat,
    replace: Option<seq<u8>>, replaceLen: nat)

  /** A `&mut [u8]` into process memory. */
  datatype Slice = Slice(start: nat, len: nat)

  // ---------------------------------------------------------------------------
  // replace_as_pattern

  /** The bytes of `mem` after the first `min(len, |pattern|)` bytes of the
      slice at `start` are overwritten with `pattern`. */
  function Patched(mem: seq<u8>, start: nat, len: nat, pattern: seq<u8>): (r: seq<u8>)
    requires start + len <= |mem|
    ensures |r| == |mem|
    ensures forall i :: 0 <= i < |mem| && !(start <= i < start + Min(len, |pattern|)) ==> r[i] == mem[i]
    ensures forall i :: 0 <= i < Min(len, |pattern|) ==> r[start + i] == pattern[i]
  {
    var n := Min(len, |pattern|);
    mem[..start] + pattern[..n] + mem[start + n..]
  }

  /** `replace_as_pattern`, with the slice given as `start`/`len` in `mem`. */
  method ReplaceAsPattern(mem: array<u8>, start: nat, len: nat, pattern: seq<u8>)
    requires start + len <= mem.Length
    modifies mem
    ensures mem[..] == Patched(old(mem[..]), start, len, pattern)
  {
    var minLength := Min(len, |pattern|);
    for i := 0 to minLength
      invariant forall j :: 0 <= j < i ==> mem[start + j] == pattern[j]
      invariant forall j :: 0 <= j < mem.Length && !(start <= j < start + i) ==> mem[j] == old(mem[j])
    {
      mem[start + i] := pattern[i];
    }
    assert mem[..] == Patched(old(mem[..]), start, len, pattern);
  }

  /** When the pattern is at least as long as the slice, the slice ends up
      holding the start of the pattern. */
  lemma PatchedSliceHoldsPattern(mem: seq<u8>, start: nat, len: nat, pattern: seq<u8>)
    requires start + len <= |mem| && len <= |pattern|
    ensures Patched(mem, start, len, pattern)[start..start + len] == pattern[..len]
  {
    var r := Patched(mem, start, len, pattern);
    forall i | 0 <= i < len ensures r[start..start + len][i] == pattern[..len][i] {
      assert r[start + i] == pattern[i];
    }
  }

  /** Overwriting a slice with the bytes it already holds changes nothing. */
  lemma PatchedWithOwnBytes(mem: seq<u8>, start: nat, len: nat)
    requires start + len <= |mem|
    ensures Patched(mem, start, len, mem[start..start + len]) == mem
  {
    var r := Patched(mem, start, len, mem[start..start + len]);
    forall i | 0 <= i < |mem| ensures r[i] == mem[i] {
      if start <= i < start + len {
        assert r[start + (i - start)] == mem[start..start + len][i - start];
      }
    }
  }

  // ---------------------------------------------------------------------------
  // is_accessible_memory

  /** `is_accessible_memory`: the page is readable and writable (plain or
      executable), committed, and not a guard page. */
  function IsAccessibleMemory(info: MemoryInfo): (b: bool)
    ensures b <==> (info.protect & PAGE_READWRITE != 0 || info.protect & PAGE_EXECUTE_READWRITE != 0) &&
                   info.state == MEM_COMMIT && info.protect & PAGE_GUARD == 0
  {
    var protect := info.protect;
    var isReadWriteAccessible :=
      (protect & PAGE_READWRITE) == PAGE_READWRITE ||
      (protect & PAGE_EXECUTE_READWRITE) == PAGE_EXECUTE_READWRITE;
    var isNotGuardPage := (protect & PAGE_GUARD) != PAGE_GUARD;
    isReadWriteAccessible && info.state == MEM_COMMIT && isNotGuardPage
  }

  /** A read-only committed page is not searched, and neither is a guard page,
      whatever else its protection allows. */
  lemma AccessibleExamples()
    ensures !IsAccessibleMemory(MemoryInfo(MEM_COMMIT, PAGE_READONLY))
    ensures !IsAccessibleMemory(MemoryInfo(MEM_COMMIT, PAGE_READWRITE | PAGE_GUARD))
    ensures IsAccessibleMemory(MemoryInfo(MEM_COMMIT, PAGE_EXECUTE_READWRITE))
    ensures !IsAccessibleMemory(MemoryInfo(0x2000, PAGE_READWRITE))
  {
  }

  // ---------------------------------------------------------------------------
  // find_string_in_range

  /** The last `pivot` bytes before `offset`, all at or after `base`, are the
      first `pivot` bytes of the pattern. */
  ghost predicate Window(mem: seq<u8>, pattern: seq<u8>, base: nat, offset: nat, pivot: nat) {
    pivot <= |pattern| && base + pivot <= offset <= |mem| &&
    mem[offset - pivot..offset] == pattern[..pivot]
  }

  /** Extending a window by a matching byte. */
  lemma WindowGrows(mem: seq<u8>, pattern: seq<u8>, base: nat, offset: nat, pivot: nat)
    requires Window(mem, pattern, base, offset, pivot)
    requires offset < |mem| && pivot < |pattern| && mem[offset] == pattern[pivot]
    ensures Window(mem, pattern, base, offset + 1, pivot + 1)
  {
    assert mem[offset - pivot..offset + 1] == mem[offset - pivot..offset] + [mem[offset]];
    assert pattern[..pivot + 1] == pattern[..pivot] + [pattern[pivot]];
  }

  /** Where the matcher's loop stops: the final `(byte_offset, pivot)`. */
  function Scan(mem: seq<u8>, pattern: seq<u8>, base: nat, offset: nat, limit: nat, pivot: nat): (r: (nat, nat))
    requires limit <= |mem| && Window(mem, pattern, base, offset, pivot)
    ensures Window(mem, pattern, base, r.0, r.1)
    ensures offset <= r.0 && (offset <= limit ==> r.0 <= limit)
    ensures !(r.0 < limit && r.1 < |pattern|)
    decreases limit - offset
  {
    if offset < limit && pivot < |pattern| then
      if mem[offset] == pattern[pivot] then
        WindowGrows(mem, pattern, base, offset, pivot);
        Scan(mem, pattern, base, offset + 1, limit, pivot + 1)
      else
        Scan(mem, pattern, base, offset + 1, limit, 0)
    else
      (offset, pivot)
  }

  /** What `find_string_in_range` returns: the start of the slice it found. */
  function FindInRange(mem: seq<u8>, pattern: seq<u8>, base: nat, limit: nat): (r: Option<nat>)
    requires base <= |mem| && limit <= |mem|
    ensures r.Some? ==> base <= r.value && r.value + |pattern| < limit &&
                        mem[r.value..r.value + |pattern|] == pattern
  {
    var (offset, pivot) := Scan(mem, pattern, base, base, limit, 0);
    if offset < limit && pivot == |pattern| then Some(offset - |pattern|) else None
  }

  /** `find_string_in_range` over `mem[base..limit]`. */
  method FindStringInRange(pattern: seq<u8>, mem: array<u8>, base: nat, limit: nat) returns (r: Option<nat>)
    requires base <= mem.Length && limit <= mem.Length
    ensures r == FindInRange(mem[..], pattern, base, limit)
  {
    ghost var m := mem[..];
    var byteOffset := base;
    var pivot := 0;
    while byteOffset < limit && pivot < |pattern|
      invariant Window(m, pattern, base, byteOffset, pivot)
      invariant Scan(m, pattern, base, byteOffset, limit, pivot) == Scan(m, pattern, base, base, limit, 0)
      decreases limit - byteOffset
    {
      var letter := mem[byteOffset];
      assert letter == m[byteOffset];
      if letter == pattern[pivot] {
        WindowGrows(m, pattern, base, byteOffset, pivot);
        pivot := pivot + 1;
      } else {
        pivot := 0;
      }
      byteOffset := byteOffset + 1;
    }
    if byteOffset < limit && pivot == |pattern| {
      r := Some(byteOffset - |pattern|);
    } else {
      r := None;
    }
  }

  /** A scan that meets the pattern's bytes one after another, with room for
      one more byte, completes the match. */
  lemma {:induction false} ScanMatches(mem: seq<u8>, pattern: seq<u8>, base: nat, offset: nat, limit: nat, pivot: nat)
    requires limit <= |mem| && Window(mem, pattern, base, offset, pivot)
    requires offset - pivot + |pattern| < limit
    requires mem[offset - pivot..offset - pivot + |pattern|] == pattern
    ensures Scan(mem, pattern, base, offset, limit, pivot) == (offset - pivot + |pattern|, |pattern|)
    decreases |pattern| - pivot
  {
    if pivot < |pattern| {
      var s := offset - pivot;
      assert mem[offset] == mem[s..s + |pattern|][pivot];
      WindowGrows(mem, pattern, base, offset, pivot);
      ScanMatches(mem, pattern, base, offset + 1, limit, pivot + 1);
    }
  }

  /** A pattern at the very start of the range is found there, provided it
      ends before the last byte of the range. */
  lemma FoundAtBase(mem: seq<u8>, pattern: seq<u8>, base: nat, limit: nat)
    requires base + |pattern| < limit <= |mem|
    requires mem[base..base + |pattern|] == pattern
    ensures FindInRange(mem, pattern, base, limit) == Some(base)
  {
    ScanMatches(mem, pattern, base, base, limit, 0);
  }

  /** A match that ends on the last byte of the range is not reported, since
      the final test needs `byte_offset < limit_offset`. */
  lemma MatchAtEndIsMissed()
    ensures var mem: seq<u8> := [7, 1, 2];
            mem[1..3] == [1, 2] && FindInRange(mem, [1, 2], 0, 3) == None
  {
    var mem: seq<u8> := [7, 1, 2];
    assert Scan(mem, [1, 2], 0, 0, 3, 0) == (3, 2);
  }

  /** After a mismatch the cursor restarts at 0 without testing the current
      byte again, so `[1, 2]` is missed in `[1, 1, 2, 0]`. */
  lemma RestartSkipsByte()
    ensures var mem: seq<u8> := [1, 1, 2, 0];
            mem[1..3] == [1, 2] && FindInRange(mem, [1, 2], 0, 4) == None
  {
    var mem: seq<u8> := [1, 1, 2, 0];
    assert Scan(mem, [1, 2], 0, 0, 4, 0) == (4, 0);
  }

  /** The library's own test case: `[1, 2, 4]` is found at index 5 of
      `[1, 2, 3, 4, 5, 1, 2, 4, 5]`, and `[1, 4, 6]` is not found. */
  lemma FindInRangeTest()
    ensures FindInRange([1, 2, 3, 4, 5, 1, 2, 4, 5], [1, 2, 4], 0, 9) == Some(5)
    ensures FindInRange([1, 2, 3, 4, 5, 1, 2, 4, 5], [1, 4, 6], 0, 9) == None
  {
    var mem: seq<u8> := [1, 2, 3, 4, 5, 1, 2, 4, 5];
    assert Scan(mem, [1, 2, 4], 0, 0, 9, 0) == (8, 3);
    assert Scan(mem, [1, 4, 6], 0, 0, 9, 0) == (9, 0);
  }

  // ---------------------------------------------------------------------------
  // is_valid_params and replace

  /** `is_valid_params`: no null pointer, and both declared lengths at most
      `MAX_STRING_SIZE`. */
  function IsValidParams(params: StringSearchParams): (b: bool)
    ensures params.process.None? || params.search.None? || params.replace.None? ==> !b
    ensures params.process.Some? && params.search.Some? && params.replace.Some? ==>
              (b <==> params.replaceLen <= MAX_STRING_SIZE && params.searchLen <= MAX_STRING_SIZE)
  {
    if params.replace.Some? && params.search.Some? && params.process.Some? then
      params.replaceLen <= MAX_STRING_SIZE && params.searchLen <= MAX_STRING_SIZE
    else
      false
  }

  /** The code `replace` returns, given the parameters (null when `None`) and
      what `find_string` returned for the search string. */
  function ResultCode(params: Option<StringSearchParams>, found: Option<Slice>): (code: int)
    ensures code == INVALID_PARAMS <==> params.None? || !IsValidParams(params.value)
    ensures code == INVALID_STRING_VALUES <==>
              params.Some? && IsValidParams(params.value) &&
              (|params.value.search.value| == 0 || |params.value.replace.value| == 0)
    ensures code == FOUND <==>
              params.Some? && IsValidParams(params.value) &&
              |params.value.search.value| > 0 && |params.value.replace.value| > 0 && found.Some?
    ensures code in {FOUND, NOT_FOUND, INVALID_PARAMS, INVALID_STRING_VALUES}
  {
    if params.None? then INVALID_PARAMS
    else if !IsValidParams(params.value) then INVALID_PARAMS
    else if |params.value.search.value| > 0 && |params.value.replace.value| > 0 then
      (if found.Some? then FOUND else NOT_FOUND)
    else INVALID_STRING_VALUES
  }

  /** `replace`: validate, and when `find_string` found the search string,
      overwrite it with the replacement. Only a found slice is written. */
  method Replace(params: Option<StringSearchParams>, mem: array<u8>, found: Option<Slice>) returns (code: int)
    requires found.Some? ==> found.value.start + found.value.len <= mem.Length
    requires found.Some? && params.Some? && params.value.search.Some? ==>
               found.value.len == |params.value.search.value|
    modifies mem
    ensures code == ResultCode(params, found)
    ensures code == FOUND ==>
              mem[..] == Patched(old(mem[..]), found.value.start, found.value.len, params.value.replace.value)
    ensures code != FOUND ==> mem[..] == old(mem[..])
  {
    if params.None? {
      return INVALID_PARAMS;
    }
    var p := params.value;
    if IsValidParams(p) {
      var searchPattern, replacePattern := p.search.value, p.replace.value;
      if |searchPattern| > 0 && |replacePattern| > 0 {
        if found.Some? {
          code := FOUND;
          ReplaceAsPattern(mem, found.value.start, found.value.len, replacePattern);
        } else {
          code := NOT_FOUND;
        }
      } else {
        code := INVALID_STRING_VALUES;
      }
    } else {
      code := INVALID_PARAMS;
    }
  }
}
