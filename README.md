# rust_winapi core, modelled in Dafny

This project models the parts of the Rust Windows-API exercises that do not
depend on Windows, and proves their properties:

- **The line sorter** (`sorter/src/main.rs`). A memory-mapped text file is
  checked for UTF-8 and cut into line views at every `'\n'`. The views are
  sorted by their bytes, and the sorted lines are written back over the file,
  separated by `'\n'`.
  - The pool decision (`min((size / 300) / 2, 20)` workers) is modelled.
  - The split branch of `sort_task` and the two-pointer `merge` are modelled
    as written, quirks included.
  - A view is `View(offset, bytes)`: the offset stands for the slice pointer,
    so stability and the merge's tie-break are observable.
- **The bounded task queue of the thread pool** (`thread_pool/src/lib.rs`).
  `TaskQueue` is a fixed-capacity LIFO stack with a one-way interrupt flag.
  `Worker::run` drains it.
  - The queue is a class, and each operation is one atomic step of a
    sequential state machine (`PutStep`, `GetStep`, `NotifyAllStep`).
  - A wait on a condition variable becomes an "enabled" precondition.
- **The string search-and-replace library** (`string_replace/src/lib.rs`).
  - Parameter validation and the result codes.
  - The page-accessibility test.
  - The single-pass matcher `find_string_in_range`, over process memory
    modelled as a byte array with indices for pointers.
  - The bounded overwrite `replace_as_pattern`.
- **The editable text grid** (`src/table.rs`). `TextTable`, `TextRow` and
  `TextCeil` are classes with their fields.
  - Modelled: row and cell rectangles, the clamped column lookup, UTF-16
    append and erase, shifting, resizing, and the selection state: a click
    selects and presses a cell, and typing edits or releases it.
  - The greedy line count of `text_lines_cnt` takes the GDI character widths
    as a parameter.
- **Hero geometry** (`src/hero.rs`): `center_to_rect` with truncating
  division, `collides`, and the rectangle update of `setPosition`.
- **`equals_string`** of the injector (`injector/src/main.rs`). It compares
  only the common prefix.
- **`to_unicode` / `from_unicode`** (`utils/src/lib.rs`, duplicated in
  `process_driver/src/utils.rs`). Each UTF-8 byte is widened to one UTF-16
  unit and a 0 unit is appended; `Length / 2` units are read back. The two
  files hold the same code (`process_driver/src/utils.rs:63-87` is
  `utils/src/lib.rs:62-86`), so one model serves both; the table cites
  whichever copy is nearer to hand.

`RtlInitUnicodeString` is not part of this model's source. It is taken as
Microsoft documents it: `Length` is the byte size of the units before the
first NUL.

Files:

- `base.dfy`: `Base`, shared types (`u8`, `u16`, `Rect`, `Option`, `Result`,
  `Min`).
- `utf8.dfy`: `Utf8`, the well-formedness `std::str::from_utf8` checks.
- `sorter.dfy`: `LineSorter`.
- `thread_pool.dfy`: `ThreadPool`.
- `string_replace.dfy`: `StringReplace`.
- `table.dfy`: `Table`.
- `hero.dfy`: `Hero`.
- `injector.dfy`: `Injector`.
- `unicode.dfy`: `WindowsUnicode`.

## Model

| member | source | states |
|---|---|---|
| Utf8.CutAtAscii | sorter/src/main.rs:58-60 | cutting valid UTF-8 text at an ASCII byte leaves valid UTF-8 on both sides |
| Utf8.SplitAtAscii | sorter/src/main.rs:58-60 | removing a `'\n'` from valid UTF-8 leaves valid text before and after it, so every piece of `split("\n")` is a `str` |
| Utf8.AsciiIsValid | sorter/src/main.rs:58 | ASCII-only text passes the UTF-8 check |
| LineSorter.LexLessIrreflexive | sorter/src/main.rs:127 | the byte order on lines is irreflexive |
| LineSorter.LexLessTransitive | sorter/src/main.rs:127 | the byte order on lines is transitive |
| LineSorter.LexLessTotal | sorter/src/main.rs:127 | any two lines are equal or ordered one way |
| LineSorter.LexLessAsymmetric | sorter/src/main.rs:155 | `a < b` excludes `b < a` |
| LineSorter.PrefixIsLess | sorter/src/main.rs:155 | a proper prefix sorts before the longer line |
| LineSorter.NextNewline | sorter/src/main.rs:59 | the split point is the first `'\n'` at or after the cursor, or the end |
| LineSorter.Partition | sorter/src/main.rs:57-61 | the partition succeeds iff the buffer is UTF-8 (otherwise `expect` panics), and then yields the line views |
| LineSorter.LinesCount | sorter/src/main.rs:57-61 | n newlines give n + 1 records |
| LineSorter.LinesAreSlices | sorter/src/main.rs:57-61 | every record is a `'\n'`-free slice of the buffer at its own offset |
| LineSorter.LinesJoin | sorter/src/main.rs:57-61 | joining the records with `'\n'` gives back the buffer |
| LineSorter.JoinLines | sorter/src/main.rs:57-61 | splitting a `'\n'`-join of `'\n'`-free lines gives those lines back |
| LineSorter.LinesAreUtf8 | sorter/src/main.rs:57-61 | every record of valid text is itself valid UTF-8 |
| LineSorter.SortRecordsCorrect | sorter/src/main.rs:127 | the sort yields an ascending permutation of its input, of the same length |
| LineSorter.SortRangeCorrect | sorter/src/main.rs:126-128 | sorting `[min..=max]` leaves that range an ascending permutation of itself and every other index unchanged |
| LineSorter.SortRangeWhole | sorter/src/main.rs:87-93 | sorting the range `0..=len-1` that `sort` passes sorts the whole array |
| LineSorter.SortAllThree | sorter/src/main.rs:262-271 | the `it_works` case: `[10,2,4], [10,2], [1,2,3]` sorts to `[1,2,3], [10,2], [10,2,4]` |
| LineSorter.SortLastTwo | sorter/src/main.rs:276-285 | the `test_range_sorting` case: sorting indices 1..=2 gives `[10,2,4], [1,2,3], [10,2]` |
| LineSorter.Merge | sorter/src/main.rs:147-170 | the merge loop produces the merge sequence `Merged` |
| LineSorter.MergePermutation | sorter/src/main.rs:147-170 | the merge returns exactly `left.len() + right.len()` views, a permutation of `left ++ right` |
| LineSorter.MergeSortedEqualLengths | sorter/src/main.rs:148-168 | two ascending inputs of equal length merge into an ascending output |
| LineSorter.MergeUnequalLengthsUnsorted | sorter/src/main.rs:148-168 | with unequal lengths, sorted inputs can merge unsorted (`[3]` with `[1,2]` gives `[1,3,2]`), because both cursors stop at the shorter length |
| LineSorter.MergeTieTakesRight | sorter/src/main.rs:155-161 | at any step of the merge where the two current lines are equal, the right view is emitted next and the left one stays |
| LineSorter.SpliceLength | sorter/src/main.rs:141-145 | the split branch keeps the array length iff the range is the whole array; otherwise the array grows |
| LineSorter.SpliceMultiset | sorter/src/main.rs:141-145 | the splice duplicates every record outside `[min..=max]` and is a permutation only over the whole array |
| LineSorter.PoolFor | sorter/src/main.rs:46-56 | no pool below 1200 bytes; otherwise 2..=20 workers and a queue twice that; 20 workers from 12000 bytes on |
| LineSorter.WriteBackOfSortedLines | sorter/src/main.rs:94-121 | writing the sorted lines of a buffer, each followed by `'\n'` and cut at the end, gives their `'\n'`-join |
| LineSorter.Sorter.constructor | sorter/src/main.rs:48-61 | `new` builds the pool decision and the line views of the buffer, at least one |
| LineSorter.Sorter.SortTask | sorter/src/main.rs:123-146 | with no pool or a short range, `sort_task` sorts `[min..=max]` as `SortRange`; it never shrinks the array or touches indices below `min` |
| LineSorter.Sorter.Sort | sorter/src/main.rs:82-122 | the buffer becomes the written stream; with no pool or fewer than 600 records, the records end sorted and permuted, and a buffer partitioned by `new` ends as the `'\n'`-join of its sorted lines |
| LineSorter.Sorter.WriteBack | sorter/src/main.rs:100-121 | the copy loop writes every line and a `'\n'`, stopping at the end of the buffer |
| LineSorter.Sorter.CopyLine | sorter/src/main.rs:102-120 | one line and its `'\n'` are copied byte by byte; it reports when the write pointer reaches the end |
| ThreadPool.NewState | thread_pool/src/lib.rs:83-93 | a new queue is empty, not interrupted, has capacity `size`, and lets `put` proceed but not `get` |
| ThreadPool.PutStep | thread_pool/src/lib.rs:114-135 | `put` fails with INTERRUPTED on an interrupted queue and changes nothing; otherwise it appends the task and counts it; the counter invariant is kept |
| ThreadPool.GetStep | thread_pool/src/lib.rs:136-157 | `get` fails with INTERRUPTED on an interrupted queue even when tasks remain; otherwise it returns and removes the last task (LIFO) |
| ThreadPool.NotifyAllStep | thread_pool/src/lib.rs:94-102 | `notify_all` sets the interrupt flag and enables every `put` and `get` |
| ThreadPool.PutThenGet | thread_pool/src/lib.rs:114-157 | `get` right after a successful `put` returns that task and restores the queue |
| ThreadPool.GetThenPut | thread_pool/src/lib.rs:114-157 | putting back what `get` returned restores the queue |
| ThreadPool.InterruptedIsFrozen | thread_pool/src/lib.rs:124-149 | once interrupted, `put` and `get` fail and leave the queue unchanged, and `notify_all` changes nothing |
| ThreadPool.Popped | thread_pool/src/lib.rs:177-189 | taking `k` tasks yields the top `min(k, len)` tasks, from the top down, so draining a queue invokes its tasks in reverse order of `put` |
| ThreadPool.PoppedNext | thread_pool/src/lib.rs:180-186 | one more `get` appends the next task down to what was invoked |
| ThreadPool.TaskQueue.constructor | thread_pool/src/lib.rs:83-93 | `TaskQueue::new(size)` with `size != 0` gives the state `NewState(size)` |
| ThreadPool.TaskQueue.NotifyAll | thread_pool/src/lib.rs:94-102 | the new state is `NotifyAllStep` of the old |
| ThreadPool.TaskQueue.GetSize | thread_pool/src/lib.rs:103-112 | returns the number of queued tasks |
| ThreadPool.TaskQueue.Put | thread_pool/src/lib.rs:114-135 | result and new state are `PutStep` of the old state |
| ThreadPool.TaskQueue.Get | thread_pool/src/lib.rs:136-157 | result and new state are `GetStep` of the old state |
| ThreadPool.Worker.constructor | thread_pool/src/lib.rs:160-176 | the worker keeps its id and its queue |
| ThreadPool.Worker.Run | thread_pool/src/lib.rs:177-189 | `run` invokes tasks in the order `get` returns them, the top ones first; it stops at the first `Err`, leaves the queue interrupted and the rest of the tasks in it, and returns 0 |
| StringReplace.Patched | string_replace/src/lib.rs:53-58 | exactly the first `min(len, |pattern|)` bytes of the slice take the pattern's bytes; the length and all other bytes stay |
| StringReplace.ReplaceAsPattern | string_replace/src/lib.rs:53-58 | the memory after the loop is `Patched` of the memory before |
| StringReplace.PatchedSliceHoldsPattern | string_replace/src/lib.rs:53-58 | a pattern at least as long as the slice fills the slice with its first bytes |
| StringReplace.PatchedWithOwnBytes | string_replace/src/lib.rs:53-58 | writing a slice's own bytes changes nothing |
| StringReplace.IsAccessibleMemory | string_replace/src/lib.rs:60-67 | a region is searched iff it is readable and writable (plain or executable), committed, and not a guard page |
| StringReplace.AccessibleExamples | string_replace/src/lib.rs:60-67 | read-only, guard and uncommitted pages are refused; an executable read-write committed page is accepted |
| StringReplace.WindowGrows | string_replace/src/lib.rs:79-81 | a matching byte extends the matched prefix by one |
| StringReplace.Scan | string_replace/src/lib.rs:71-86 | the matcher's loop stops with the last `pivot` bytes equal to the pattern's prefix, at or before `limit`, and with the range or the pattern exhausted |
| StringReplace.FindInRange | string_replace/src/lib.rs:69-96 | a returned slice equals the pattern and lies inside `[base, limit)`, ending before `limit` |
| StringReplace.FindStringInRange | string_replace/src/lib.rs:69-96 | the pointer loop returns `FindInRange` |
| StringReplace.ScanMatches | string_replace/src/lib.rs:73-86 | a pattern met byte after byte with room to spare is completed by the scan |
| StringReplace.FoundAtBase | string_replace/src/lib.rs:69-96 | a pattern at the start of the range is found there when it ends before the last byte |
| StringReplace.MatchAtEndIsMissed | string_replace/src/lib.rs:73-88 | a match ending on the last byte (`[1,2]` in `[7,1,2]`) is not reported |
| StringReplace.RestartSkipsByte | string_replace/src/lib.rs:80-84 | after a mismatch the current byte is not tested again, so `[1,2]` is missed in `[1,1,2,0]` |
| StringReplace.FindInRangeTest | string_replace/src/lib.rs:177-189 | `[1,2,4]` is found at index 5 of `[1,2,3,4,5,1,2,4,5]`; `[1,4,6]` is not found |
| StringReplace.IsValidParams | string_replace/src/lib.rs:124-134 | false when any pointer is null; otherwise true iff both lengths are at most 255 |
| StringReplace.ResultCode | string_replace/src/lib.rs:137-161 | InvalidParams iff params are null or invalid; InvalidStringValues iff valid with an empty search or replace string; Found iff valid, both non-empty and found; otherwise NotFound |
| StringReplace.Replace | string_replace/src/lib.rs:136-161 | returns `ResultCode`; memory is patched with the replacement only when the code is Found, and is untouched otherwise |
| Table.OffsetRect | src/table.rs:296-298 | moving a rectangle keeps its width and height and moves its corner by the offset |
| Table.OffsetRectComposes | src/table.rs:293-300 | offsets add up, and moving back undoes a move |
| Table.UsizeOf | src/table.rs:425-428 | `as usize` keeps a non-negative value and wraps a negative one to at least 2^32 |
| Table.CeilRectNext | src/table.rs:247-251 | moving cell j's rectangle by one cell width gives cell j+1's |
| Table.ColumnOf | src/table.rs:324-329 | the selected index is in bounds; it is the cell under the offset, or the last cell past the row |
| Table.CeilContainsOffset | src/table.rs:324-329 | in a laid-out row, the cell `ceil` picks contains the offset |
| Table.Erased | src/table.rs:388-393 | erasing removes the last unit; empty text stays empty |
| Table.EraseUndoesAppend | src/table.rs:388-397 | erasing undoes an append |
| Table.Wrap | src/table.rs:409-424 | the greedy count is at least 1 and at most one more than the number of units |
| Table.PerLine | src/table.rs:401-405 | `chars_per_line` is the largest count of letters that fits the line |
| Table.WrapUniformRest | src/table.rs:409-424 | with letters of one width, the greedy wrap fills lines of `chars_per_line` letters |
| Table.WrapUniform | src/table.rs:401-424 | with letters of one width, the greedy count equals the fixed-width formula `ceil(n / chars_per_line)` |
| Table.TextCeil.constructor | src/table.rs:333-336 | a new cell has the given rectangle, no text and no properties |
| Table.TextCeil.SetProperties | src/table.rs:430-432 | only the properties change |
| Table.TextCeil.AppendLetter | src/table.rs:395-397 | the unit is pushed at the end; nothing else changes |
| Table.TextCeil.EraseLetter | src/table.rs:388-393 | the text becomes `Erased` of the old text; nothing else changes |
| Table.TextCeil.Height | src/table.rs:425-428 | the height is `bottom - top` when that is not negative |
| Table.TextCeil.SetHeight | src/table.rs:434-436 | only the bottom edge moves, to `top + height`, and `Height()` then returns `height` |
| Table.TextCeil.TextLinesCnt | src/table.rs:409-424 | the loop computes the greedy count `Wrap`: at least 1, exactly 1 for empty text |
| Table.TextRow.constructor | src/table.rs:236-260 | `column_cnt` distinct empty cells; cell j spans `[x + j*cw, x + (j+1)*cw]` with `cw = width / column_cnt`, over the row's full height |
| Table.TextRow.SetProperties | src/table.rs:267-269 | every cell gets the properties; texts and rectangles stay |
| Table.TextRow.Resize | src/table.rs:275-292 | the same cells are laid out again for the new size; their texts and properties stay |
| Table.TextRow.Shift | src/table.rs:293-300 | the row rectangle and every cell rectangle move by the same offset; nothing else changes |
| Table.TextRow.Ceil | src/table.rs:324-329 | returns the cell at index `min(offset / ceil_width, len - 1)` |
| Table.TextTable.constructor | src/table.rs:72-100 | `row_cnt` rows of `column_cnt` empty, released cells; row i is laid out at `top + i * (height / row_cnt)`; nothing is selected |
| Table.TextTable.NewReleasedRow | src/table.rs:83-84 | a fresh row laid out as asked, with every cell released |
| Table.TextTable.ReleaseOldCeil | src/table.rs:190-198 | the selected cell is released, keeping its text and rectangle, and both selection fields are cleared; rows and sizes stay |
| Table.ClickedRow | src/table.rs:138-150 | the row picked is the first whose rectangle contains the point, or the last row when no earlier one does; it contains the point exactly when some row does |
| Table.TextTable.FindClickedRow | src/table.rs:138-150 | the search loop with its `break` and its fallback to the last row returns `ClickedRow` of the rows' rectangles |
| Table.TextTable.Select | src/table.rs:151-156 | the old selection is released (text and rectangle kept), the cell of the given row under `x` is pressed, and it and its row become the selection; rows and sizes stay |
| Table.TextTable.HandleClick | src/table.rs:132-157 | a click outside `[0, table_width] x [0, table_height]` changes nothing; otherwise the cell under `x` in `ClickedRow` is pressed and selected with that row and index, a different old selection is released, and no text or rectangle changes |
| Table.TextTable.HandleType | src/table.rs:158-176 | with nothing selected nothing changes; ESC releases the selection; BACK erases a unit of the selected cell and any other key appends `key as u16`; rows, sizes and the cell's rectangle stay |
| Hero.Half | src/hero.rs:144-147 | `v / 2` truncates toward zero |
| Hero.CenterToRect | src/hero.rs:142-149 | the box is centred on the point, and each side is within 1 of the requested size |
| Hero.EvenSizeIsExact | src/hero.rs:142-149 | an even size is met exactly |
| Hero.DefaultSize | src/hero.rs:24-29 | the default box is exactly 100 by 100, from `x - 50` to `x + 50` |
| Hero.FlyHero.constructor | src/hero.rs:28-37 | `new` gives the default box around the point, at rest, with the point as its position |
| Hero.FlyHero.Collides | src/hero.rs:42-56 | None iff the box is inside the window; Horizontal iff it sticks out left or right; Vertical iff horizontally inside but out at the top or bottom |
| Hero.FlyHero.SetPosition | src/hero.rs:110-114 | the box becomes the default box around the point, velocity becomes zero, and `position` is not updated |
| Hero.PlacedInsideDoesNotCollide | src/hero.rs:42-56 | a hero placed at least 50 from every edge does not collide |
| Injector.EqualsString | injector/src/main.rs:22-30 | true iff the two strings agree at every index below the shorter length |
| Injector.AgreeBelowIffPrefix | injector/src/main.rs:22-30 | `equals_string` holds iff one string is a prefix of the other |
| Injector.AgreeBelowSymmetric | injector/src/main.rs:22-30 | the comparison is symmetric |
| Injector.AgreeBelowReflexive | injector/src/main.rs:22-30 | every string matches itself |
| Injector.EmptyAgrees | injector/src/main.rs:23-29 | an empty string matches every string |
| Injector.NotEquality | injector/src/main.rs:22-30 | two different strings, one a prefix of the other, still match |
| WindowsUnicode.Widened | utils/src/lib.rs:66-68 | each byte becomes one unit with the same value |
| WindowsUnicode.ToUnicodeBuffer | utils/src/lib.rs:63-69 | the buffer has `len + 1` units: each byte zero-extended, then 0 |
| WindowsUnicode.FirstZero | utils/src/lib.rs:72-73 | the index of the first 0 unit of the buffer |
| WindowsUnicode.InitUnicodeString | process_driver/src/utils.rs:71-76 | `Length` is even and covers at most the buffer |
| WindowsUnicode.FromUnicodeUnits | utils/src/lib.rs:78-83 | `from_unicode` reads the first `Length / 2` units of the buffer |
| WindowsUnicode.RoundTrip | utils/src/lib.rs:63-85 | for text without a NUL byte, reading back what `to_unicode` built gives the widened bytes |
| WindowsUnicode.InteriorNulTruncates | utils/src/lib.rs:63-85 | a NUL byte in the text cuts what is read back at that byte |
| WindowsUnicode.WideningIsNotDecoding | process_driver/src/utils.rs:67-69 | a two-byte UTF-8 character becomes two units, not its UTF-16 code unit |

## Left out

- File mapping and `main` of the sorter (`FileMappingRec`, `CreateFileW`, `MapViewOfFile`): Win32 file I/O. The model starts from a byte array.
- Threads and synchronisation: `Worker::new`'s `CreateThread` and `system_proc`, the critical section, the condition variables, `ThreadPool::new`/`submit`/`wait` and the join in `Drop`. The queue's operations are atomic steps here.
- The sorter's parallel fork/join. `sort_task` calls `submit(...)` and `.get()` on futures that the thread pool's `submit` does not return. The split branch is modelled with the two children run one after the other.
- LineSorter.Sorter.SortTask: in the split branch the contract states only that the array does not shrink and indices below `min` stay. The exact result is `SpliceMerged` of the array as the two child calls left it, not of the array at entry. `SpliceLength` and `SpliceMultiset` state its length and contents.
- LineSorter.Sorter.constructor: requires UTF-8 input. On other input the source panics in `expect`; `Partition` models that as an error value.
- The standard library's stable sort is modelled by a stable insertion sort with the same result.
- `find_string`, `get_system_info`, `VirtualQueryEx` and `DllMain` of the replace library: they walk a foreign process's memory. StringReplace.Replace takes the slice `find_string` would return as a parameter (`found`).
- StringReplace.Replace: requires the found slice to lie in the memory array, as a real pointer into the process does, and to be as long as the search string, as a slice `find_string` returns is.
- The C-string reads (`CStr::from_ptr`) are taken as the bytes before the NUL. The declared lengths `cbSearchLen`/`cbReplaceLen` are checked separately, as in the source.
- ThreadPool.TaskQueue.Put: requires `PutEnabled`; the source would sleep until the queue has room or is interrupted.
- ThreadPool.TaskQueue.Get: requires `GetEnabled`; the source would sleep until the queue has a task or is interrupted.
- ThreadPool.Worker.Run: the pool's `notify_all` from another thread is modelled by the `notifyAfter` parameter. It arrives after that many tasks, or when the worker would sleep on an empty queue. `task.invoke()` is recorded in `invoked` rather than called.
- The `Vec::with_capacity(size)` capacity is taken as exactly `size`, which is what `put`'s wait compares with.
- Table.TextTable.HandleClick: `utils::point_in_rect` is not part of this model; the row test is the parameter `pointInRect`. It requires every row to have cells and a non-zero cell width (`RowsReady`), because `TextRow::ceil` divides by the cell width and the source panics on zero.
- Table.TextTable.HandleType: the re-layout after a key (`text_height`, `shrink`, and the `shift` of the following rows) is left out, because the heights come from GDI text measurement.
- Table.TextTable.constructor: requires a client rectangle with non-negative origin and extent (a window's client area), so the `as usize` casts keep their values. It also requires `rowCnt > 0`: with no rows the source divides by zero when it computes the row height (src/table.rs:76) and panics, which the model does not represent.
- Table.TextRow.Ceil: requires a non-zero cell width; the source divides by zero (a panic) otherwise.
- Table.TextCeil.Height: does not model 32-bit `LONG` wrap-around of `bottom - top`; it requires the difference to fit.
- `TextTable::resize`, `draw`, `scroll`, `get_caret_pos`, `set_char_properties`, `finalize`, `generate_properties`, `TextRow::shrink`/`draw` and `TextCeil::draw`/`text_height`: GDI drawing, brushes and text measurement, or the re-layout that depends on it.
- Cell properties are the choice of property set (`Pressed` or `Released`). The brushes and character sizes they point at are not modelled.
- Integer widths: `usize`, `LONG` and `INT` arithmetic is unbounded in the model, except where a contract states otherwise. This includes the `as LONG` casts in the table layout and `key as u16`, which is modelled as the low 16 bits.
- Hero physics and drawing: `boost`, `makeMove`, `shift`, `quickJump`, `stop` and `draw` are `f32` arithmetic or GDI. `Vector2` components are reals and are only stored.
- The rest of the injector (process snapshot, `find_pid_by_name`, `inject_dll`), `emiter`, the DLL callers, the kernel drivers and the UI plumbing (`src/main.rs`, `src/utils.rs`, `src/resources.rs`, `src/background.rs`) are Win32, NT or FFI calls.
- `String::from_utf16_lossy` in `from_unicode`: the model stops at the units read back.
- WindowsUnicode.InitUnicodeString: does not model the 64 KiB cap of `RtlInitUnicodeString` (a `USHORT` `Length`).
