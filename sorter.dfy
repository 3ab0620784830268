/** The line sorter of `sorter/src/main.rs`: a memory-mapped text file is cut
    into line views at every '\n', the views are sorted by their bytes, and the
    sorted lines are written back over the file, separated by '\n'.

    A line view (`&[u8]` in the source) is a `View`: the offset the slice
    starts at in the mapped file, which stands for its pointer, and the bytes
    it reads. Comparisons look at the bytes only; the offset tells apart two
    views of equal lines, which is how the merge's tie-break is observable. */
module LineSorter {
  import opened Base
  import Utf8

  /** `Sorter::SIZE_THRESHOLD`. */
  const SIZE_THRESHOLD: nat := 300
  /** `Sorter::MAX_WORKERS_COUNT`. */
  const MAX_WORKERS_COUNT: nat := 20

  datatype View = View(offset: nat, bytes: seq<u8>)

  // ---------------------------------------------------------------------------
  // The order of `[u8]`: byte by byte, and a proper prefix is smaller.

  predicate LexLess(a: seq<u8>, b: seq<u8>)
    decreases |a|
  {
    if |a| == 0 then |b| > 0
    else if |b| == 0 then false
    else if a[0] != b[0] then a[0] < b[0]
    else LexLess(a[1..], b[1..])
  }

  lemma {:induction false} LexLessIrreflexive(a: seq<u8>)
    ensures !LexLess(a, a)
    decreases |a|
  {
    if |a| > 0 {
      LexLessIrreflexive(a[1..]);
    }
  }

  lemma {:induction false} LexLessTransitive(a: seq<u8>, b: seq<u8>, c: seq<u8>)
    requires LexLess(a, b) && LexLess(b, c)
    ensures LexLess(a, c)
    decreases |a|
  {
    if |a| > 0 && a[0] == b[0] && b[0] == c[0] {
      LexLessTransitive(a[1..], b[1..], c[1..]);
    }
  }

  lemma {:induction false} LexLessTotal(a: seq<u8>, b: seq<u8>)
    ensures a == b || LexLess(a, b) || LexLess(b, a)
    decreases |a|
  {
    if |a| > 0 && |b| > 0 && a[0] == b[0] {
      LexLessTotal(a[1..], b[1..]);
      if a[1..] == b[1..] {
        assert a == [a[0]] + a[1..] && b == [b[0]] + b[1..];
      }
    }
  }

  lemma {:induction false} PrefixIsLess(a: seq<u8>, b: seq<u8>)
    requires |a| < |b| && a == b[..|a|]
    ensures LexLess(a, b)
    decreases |a|
  {
    if |a| > 0 {
      assert a[1..] == b[1..][..|a| - 1];
      PrefixIsLess(a[1..], b[1..]);
    }
  }

  lemma LexLessAsymmetric(a: seq<u8>, b: seq<u8>)
    requires LexLess(a, b)
    ensures !LexLess(b, a)
  {
    if LexLess(b, a) {
      LexLessTransitive(a, b, a);
      LexLessIrreflexive(a);
    }
  }

  /** a <= b < c gives a < c. */
  lemma LeLessTrans(a: seq<u8>, b: seq<u8>, c: seq<u8>)
    requires !LexLess(b, a) && LexLess(b, c)
    ensures LexLess(a, c)
  {
    LexLessTotal(a, b);
    if a != b {
      LexLessTransitive(a, b, c);
    }
  }

  /** a <= b <= c gives a <= c. */
  lemma LeTrans(a: seq<u8>, b: seq<u8>, c: seq<u8>)
    requires !LexLess(b, a) && !LexLess(c, b)
    ensures !LexLess(c, a)
  {
    if LexLess(c, a) {
      LexLessTotal(a, b);
      if a == b {
      } else {
        LexLessTransitive(c, a, b);
      }
    }
  }

  /** Ascending by bytes. */
  predicate Sorted(vs: seq<View>)
  {
    forall i, j :: 0 <= i < j < |vs| ==> !LexLess(vs[j].bytes, vs[i].bytes)
  }

  lemma SortedCons(x: View, s: seq<View>)
    requires Sorted(s)
    requires forall e :: e in s ==> !LexLess(e.bytes, x.bytes)
    ensures Sorted([x] + s)
  {
    var r := [x] + s;
    forall i, j | 0 <= i < j < |r| ensures !LexLess(r[j].bytes, r[i].bytes) {
      if i == 0 {
        assert r[j] == s[j - 1] && r[j] in s;
      } else {
        assert r[i] == s[i - 1] && r[j] == s[j - 1];
      }
    }
  }

  lemma SortedSuffix(s: seq<View>, k: nat)
    requires Sorted(s) && k <= |s|
    ensures Sorted(s[k..])
  {
    var t := s[k..];
    forall i, j | 0 <= i < j < |t| ensures !LexLess(t[j].bytes, t[i].bytes) {
      assert t[i] == s[k + i] && t[j] == s[k + j];
    }
  }

  // ---------------------------------------------------------------------------
  // Partition: `str::from_utf8(bytes).expect(..).split("\n")`.

  /** The first '\n' at or after `from`, or the end of the buffer. */
  function NextNewline(buf: seq<u8>, from: nat): (k: nat)
    requires from <= |buf|
    ensures from <= k <= |buf|
    ensures k < |buf| ==> buf[k] == NEWLINE
    ensures forall i :: from <= i < k ==> buf[i] != NEWLINE
    decreases |buf| - from
  {
    if from == |buf| || buf[from] == NEWLINE then from else NextNewline(buf, from + 1)
  }

  /** The views `split("\n")` yields from `from` on. */
  function LinesFrom(buf: seq<u8>, from: nat): (vs: seq<View>)
    requires from <= |buf|
    ensures |vs| > 0
    decreases |buf| - from
  {
    var k := NextNewline(buf, from);
    if k == |buf| then [View(from, buf[from..])]
    else [View(from, buf[from..k])] + LinesFrom(buf, k + 1)
  }

  /** The record array `Sorter::new` builds from the mapped file. */
  function Lines(buf: seq<u8>): seq<View>
  {
    LinesFrom(buf, 0)
  }

  datatype PartitionError = NotUtf8

  /** `Sorter::new`'s partition, with the panic of `expect` on text that is
      not UTF-8 as an error value. */
  function Partition(buf: seq<u8>): (r: Result<seq<View>, PartitionError>)
    ensures r.Ok? <==> Utf8.ValidUtf8(buf)
    ensures r.Ok? ==> r.value == Lines(buf)
  {
    if Utf8.ValidUtf8(buf) then Ok(Lines(buf)) else Err(NotUtf8)
  }

  /** The bytes of every view, in order (the snapshot `sort` clones). */
  function Contents(vs: seq<View>): (cs: seq<seq<u8>>)
    ensures |cs| == |vs|
    ensures forall i :: 0 <= i < |vs| ==> cs[i] == vs[i].bytes
  {
    if |vs| == 0 then [] else [vs[0].bytes] + Contents(vs[1..])
  }

  /** Lines separated by '\n' (no '\n' after the last). */
  function Join(cs: seq<seq<u8>>): seq<u8>
  {
    if |cs| == 0 then []
    else if |cs| == 1 then cs[0]
    else cs[0] + [NEWLINE] + Join(cs[1..])
  }

  /** Every line followed by '\n': the byte stream `sort` writes. */
  function Flat(cs: seq<seq<u8>>): seq<u8>
  {
    if |cs| == 0 then [] else cs[0] + [NEWLINE] + Flat(cs[1..])
  }

  function CountNewlines(s: seq<u8>): nat
  {
    multiset(s)[NEWLINE]
  }

  // The recursive lemmas below keep each step in a small helper lemma whose
  // parameters stand for the records: a step stated directly on `LinesFrom`,
  // `Contents` and `Join` makes the solver unfold all three at once.

  /** One step of `LinesFrom`. */
  lemma LinesFromUnfold(buf: seq<u8>, from: nat)
    requires from <= |buf|
    ensures NextNewline(buf, from) < |buf| ==>
              LinesFrom(buf, from) ==
                [View(from, buf[from..NextNewline(buf, from)])] + LinesFrom(buf, NextNewline(buf, from) + 1)
    ensures NextNewline(buf, from) == |buf| ==> LinesFrom(buf, from) == [View(from, buf[from..])]
  {
  }

  /** Cutting `buf[from..]` at the '\n' at `k`. */
  lemma CutAt(buf: seq<u8>, from: nat, k: nat)
    requires from <= k < |buf| && buf[k] == NEWLINE
    ensures buf[from..] == buf[from..k] + [NEWLINE] + buf[k + 1..]
  {
    assert buf[from..] == buf[from..k] + [buf[k]] + buf[k + 1..];
  }

  /** The newlines of `buf[from..]` are the one at `k` and those after it. */
  lemma CountStep(buf: seq<u8>, from: nat, k: nat)
    requires from <= k <= |buf|
    requires forall i :: from <= i < k ==> buf[i] != NEWLINE
    requires k < |buf| ==> buf[k] == NEWLINE
    ensures k < |buf| ==> CountNewlines(buf[from..]) == CountNewlines(buf[k + 1..]) + 1
    ensures k == |buf| ==> CountNewlines(buf[from..]) == 0
  {
    assert NEWLINE !in buf[from..k];
    if k < |buf| {
      CutAt(buf, from, k);
    } else {
      assert buf[from..] == buf[from..k];
    }
  }

  lemma {:induction false} LinesFromCount(buf: seq<u8>, from: nat)
    requires from <= |buf|
    ensures |LinesFrom(buf, from)| == CountNewlines(buf[from..]) + 1
    decreases |buf| - from
  {
    var k := NextNewline(buf, from);
    if k < |buf| {
      LinesFromCount(buf, k + 1);
      CountNext(buf, from);
    } else {
      LinesFromUnfold(buf, from);
      CountStep(buf, from, k);
    }
  }

  lemma CountNext(buf: seq<u8>, from: nat)
    requires from <= |buf| && NextNewline(buf, from) < |buf|
    requires var k := NextNewline(buf, from);
             |LinesFrom(buf, k + 1)| == CountNewlines(buf[k + 1..]) + 1
    ensures |LinesFrom(buf, from)| == CountNewlines(buf[from..]) + 1
  {
    LinesFromUnfold(buf, from);
    CountStep(buf, from, NextNewline(buf, from));
  }

  /** n newlines give n + 1 records. */
  lemma LinesCount(buf: seq<u8>)
    ensures |Lines(buf)| == CountNewlines(buf) + 1
  {
    LinesFromCount(buf, 0);
    assert buf[0..] == buf;
  }

  /** `v` is a '\n'-free slice of `buf` at its own offset, at or after `from`. */
  predicate IsRecordOf(buf: seq<u8>, from: nat, v: View)
  {
    from <= v.offset && v.offset + |v.bytes| <= |buf| &&
    v.bytes == buf[v.offset..v.offset + |v.bytes|] && NEWLINE !in v.bytes
  }

  lemma RecordsCons(buf: seq<u8>, from: nat, vs: seq<View>, v: View, rest: seq<View>, next: nat)
    requires vs == [v] + rest && from <= next
    requires IsRecordOf(buf, from, v)
    requires forall w :: w in rest ==> IsRecordOf(buf, next, w)
    ensures forall w :: w in vs ==> IsRecordOf(buf, from, w)
  {
  }

  lemma {:induction false} LinesFromViews(buf: seq<u8>, from: nat)
    requires from <= |buf|
    ensures forall v :: v in LinesFrom(buf, from) ==> IsRecordOf(buf, from, v)
    decreases |buf| - from
  {
    var k := NextNewline(buf, from);
    if k < |buf| {
      LinesFromViews(buf, k + 1);
      ViewsNext(buf, from, k + 1);
    } else {
      LinesFromUnfold(buf, from);
      assert buf[from..] == buf[from..k];
      assert NEWLINE !in buf[from..k];
    }
  }

  lemma ViewsNext(buf: seq<u8>, from: nat, next: nat)
    requires from <= |buf| && NextNewline(buf, from) < |buf| && next == NextNewline(buf, from) + 1
    requires forall v :: v in LinesFrom(buf, next) ==> IsRecordOf(buf, next, v)
    ensures forall v :: v in LinesFrom(buf, from) ==> IsRecordOf(buf, from, v)
  {
    var k := NextNewline(buf, from);
    LinesFromUnfold(buf, from);
    var v := View(from, buf[from..k]);
    assert NEWLINE !in v.bytes;
    RecordsCons(buf, from, LinesFrom(buf, from), v, LinesFrom(buf, next), next);
  }

  /** Every record is a '\n'-free slice of the buffer at its own offset. */
  lemma LinesAreSlices(buf: seq<u8>)
    ensures forall v :: v in Lines(buf) ==>
              v.offset + |v.bytes| <= |buf| &&
              v.bytes == buf[v.offset..v.offset + |v.bytes|] && NEWLINE !in v.bytes
  {
    LinesFromViews(buf, 0);
  }

  lemma ContentsCons(vs: seq<View>, v: View, rest: seq<View>, cs: seq<seq<u8>>, tail: seq<seq<u8>>)
    requires vs == [v] + rest && Contents(rest) == tail && cs == [v.bytes] + tail
    ensures Contents(vs) == cs
  {
    assert vs[1..] == rest;
  }

  lemma JoinCons(vs: seq<View>, v: View, rest: seq<View>, whole: seq<u8>, tail: seq<u8>)
    requires vs == [v] + rest && |rest| > 0
    requires Join(Contents(rest)) == tail && whole == v.bytes + [NEWLINE] + tail
    ensures Join(Contents(vs)) == whole
  {
    ContentsCons(vs, v, rest, [v.bytes] + Contents(rest), Contents(rest));
    assert ([v.bytes] + Contents(rest))[1..] == Contents(rest);
  }

  lemma JoinSingle(vs: seq<View>, v: View, whole: seq<u8>)
    requires vs == [v] && whole == v.bytes
    ensures Join(Contents(vs)) == whole
  {
  }

  lemma {:induction false} LinesFromJoin(buf: seq<u8>, from: nat)
    requires from <= |buf|
    ensures Join(Contents(LinesFrom(buf, from))) == buf[from..]
    decreases |buf| - from
  {
    var k := NextNewline(buf, from);
    if k < |buf| {
      LinesFromJoin(buf, k + 1);
      JoinNext(buf, from);
    } else {
      LinesFromUnfold(buf, from);
      JoinSingle(LinesFrom(buf, from), View(from, buf[from..]), buf[from..]);
    }
  }

  lemma JoinNext(buf: seq<u8>, from: nat)
    requires from <= |buf| && NextNewline(buf, from) < |buf|
    requires var k := NextNewline(buf, from);
             Join(Contents(LinesFrom(buf, k + 1))) == buf[k + 1..]
    ensures Join(Contents(LinesFrom(buf, from))) == buf[from..]
  {
    var k := NextNewline(buf, from);
    LinesFromUnfold(buf, from);
    CutAt(buf, from, k);
    JoinCons(LinesFrom(buf, from), View(from, buf[from..k]), LinesFrom(buf, k + 1), buf[from..], buf[k + 1..]);
  }

  /** Joining the records with '\n' gives back the buffer. */
  lemma LinesJoin(buf: seq<u8>)
    ensures Join(Contents(Lines(buf))) == buf
  {
    LinesFromJoin(buf, 0);
    assert buf[0..] == buf;
  }

  /** A '\n'-free run `c` at `from`, followed by '\n', is one whole record. */
  lemma RecordThenNewline(buf: seq<u8>, from: nat, c: seq<u8>, next: nat)
    requires from + |c| < |buf| && buf[from..from + |c|] == c
    requires NEWLINE !in c && buf[from + |c|] == NEWLINE && next == from + |c| + 1
    ensures LinesFrom(buf, from) == [View(from, c)] + LinesFrom(buf, next)
  {
    LinesFromUnfold(buf, from);
  }

  /** A '\n'-free run `c` that ends the buffer is the last record. */
  lemma RecordThenEnd(buf: seq<u8>, from: nat, c: seq<u8>)
    requires from <= |buf| && buf[from..] == c && NEWLINE !in c
    ensures LinesFrom(buf, from) == [View(from, c)]
  {
    LinesFromUnfold(buf, from);
  }

  /** The first line of a join and the '\n' after it. */
  lemma JoinShape(p: seq<u8>, cs: seq<seq<u8>>)
    requires |cs| > 1
    ensures var buf := p + Join(cs);
            buf == (p + cs[0] + [NEWLINE]) + Join(cs[1..]) &&
            |p| + |cs[0]| < |buf| && buf[|p|..|p| + |cs[0]|] == cs[0] && buf[|p| + |cs[0]|] == NEWLINE
  {
    var buf := p + Join(cs);
    assert buf == p + cs[0] + [NEWLINE] + Join(cs[1..]);
    assert buf[|p|..|p| + |cs[0]|] == cs[0];
  }

  lemma JoinOne(p: seq<u8>, cs: seq<seq<u8>>)
    requires |cs| == 1
    ensures (p + Join(cs))[|p|..] == cs[0]
  {
    assert p + Join(cs) == p + cs[0];
  }

  lemma ContentsSingle(vs: seq<View>, v: View, cs: seq<seq<u8>>)
    requires vs == [v] && cs == [v.bytes]
    ensures Contents(vs) == cs
  {
  }

  lemma {:induction false} LinesFromOfJoin(p: seq<u8>, cs: seq<seq<u8>>)
    requires |cs| > 0
    requires forall c :: c in cs ==> NEWLINE !in c
    ensures Contents(LinesFrom(p + Join(cs), |p|)) == cs
    decreases |cs|
  {
    assert cs[0] in cs;
    if |cs| == 1 {
      var buf := p + Join(cs);
      JoinOne(p, cs);
      RecordThenEnd(buf, |p|, cs[0]);
      ContentsSingle(LinesFrom(buf, |p|), View(|p|, cs[0]), cs);
    } else {
      var p' := p + cs[0] + [NEWLINE];
      LinesFromOfJoin(p', cs[1..]);
      OfJoinNext(p, cs);
    }
  }

  lemma OfJoinNext(p: seq<u8>, cs: seq<seq<u8>>)
    requires |cs| > 1 && NEWLINE !in cs[0]
    requires Contents(LinesFrom((p + cs[0] + [NEWLINE]) + Join(cs[1..]), |p + cs[0] + [NEWLINE]|)) == cs[1..]
    ensures Contents(LinesFrom(p + Join(cs), |p|)) == cs
  {
    var buf := p + Join(cs);
    var p' := p + cs[0] + [NEWLINE];
    JoinShape(p, cs);
    RecordThenNewline(buf, |p|, cs[0], |p'|);
    assert cs == [cs[0]] + cs[1..];
    ContentsCons(LinesFrom(buf, |p|), View(|p|, cs[0]), LinesFrom(buf, |p'|), cs, cs[1..]);
  }

  /** Splitting a '\n'-join of '\n'-free lines gives the lines back. */
  lemma JoinLines(cs: seq<seq<u8>>)
    requires |cs| > 0
    requires forall c :: c in cs ==> NEWLINE !in c
    ensures Contents(Lines(Join(cs))) == cs
  {
    LinesFromOfJoin([], cs);
    assert [] + Join(cs) == Join(cs);
  }

  lemma AllCons(vs: seq<View>, v: View, rest: seq<View>, P: seq<u8> -> bool)
    requires vs == [v] + rest && P(v.bytes)
    requires forall w :: w in rest ==> P(w.bytes)
    ensures forall w :: w in vs ==> P(w.bytes)
  {
  }

  /** A property of text that survives cutting at a '\n' holds of every record. */
  lemma {:induction false} LinesFromSatisfy(buf: seq<u8>, from: nat, P: seq<u8> -> bool)
    requires from <= |buf| && P(buf[from..])
    requires forall a: nat, b: nat :: a <= b < |buf| && buf[b] == NEWLINE && P(buf[a..]) ==>
               P(buf[a..b]) && P(buf[b + 1..])
    ensures forall v :: v in LinesFrom(buf, from) ==> P(v.bytes)
    decreases |buf| - from
  {
    var k := NextNewline(buf, from);
    LinesFromUnfold(buf, from);
    if k < |buf| {
      LinesFromSatisfy(buf, k + 1, P);
      AllCons(LinesFrom(buf, from), View(from, buf[from..k]), LinesFrom(buf, k + 1), P);
    }
  }

  /** The record ending at the newline at `k` and the text after it are valid. */
  lemma LineAndRestUtf8(buf: seq<u8>, from: nat, k: nat)
    requires from <= k < |buf| && buf[k] == NEWLINE && Utf8.ValidUtf8(buf[from..])
    ensures Utf8.ValidUtf8(buf[from..k]) && Utf8.ValidUtf8(buf[k + 1..])
  {
    var s, j := buf[from..], k - from;
    assert s[j] == buf[k];
    assert s[..j] == buf[from..k] && s[j + 1..] == buf[k + 1..];
    Utf8.SplitAtAscii(s, j);
  }

  /** Every record of valid UTF-8 text is valid UTF-8 (a `&str`). */
  lemma LinesAreUtf8(buf: seq<u8>)
    requires Utf8.ValidUtf8(buf)
    ensures forall v :: v in Lines(buf) ==> Utf8.ValidUtf8(v.bytes)
  {
    forall a: nat, b: nat | a <= b < |buf| && buf[b] == NEWLINE && Utf8.ValidUtf8(buf[a..])
      ensures Utf8.ValidUtf8(buf[a..b]) && Utf8.ValidUtf8(buf[b + 1..])
    {
      LineAndRestUtf8(buf, a, b);
    }
    assert buf[0..] == buf;
    LinesFromSatisfy(buf, 0, Utf8.ValidUtf8);
  }

  // ---------------------------------------------------------------------------
  // The sequential sort `array[min..=max].sort()` (a stable sort of the
  // standard library), given here as insertion sort.

  function Insert(x: View, s: seq<View>): seq<View>
  {
    if |s| == 0 || !LexLess(s[0].bytes, x.bytes) then [x] + s
    else [s[0]] + Insert(x, s[1..])
  }

  function SortRecords(s: seq<View>): seq<View>
  {
    if |s| == 0 then [] else Insert(s[0], SortRecords(s[1..]))
  }

  lemma MultisetCons(s: seq<View>)
    requires |s| > 0
    ensures multiset(s) == multiset{s[0]} + multiset(s[1..])
  {
    assert s == [s[0]] + s[1..];
  }

  /** `x` goes in front when it is not above the first entry. */
  lemma InsertFront(x: View, s: seq<View>)
    requires Sorted(s)
    requires |s| == 0 || !LexLess(s[0].bytes, x.bytes)
    ensures Sorted(Insert(x, s))
    ensures multiset(Insert(x, s)) == multiset(s) + multiset{x}
  {
    forall e | e in s ensures !LexLess(e.bytes, x.bytes) {
      var k :| 0 <= k < |s| && s[k] == e;
      if k > 0 {
        if LexLess(e.bytes, x.bytes) {
          LeLessTrans(s[0].bytes, e.bytes, x.bytes);
        }
      }
    }
    SortedCons(x, s);
  }

  /** `x` goes further in when it is above the first entry. */
  lemma InsertLater(x: View, s: seq<View>)
    requires Sorted(s) && |s| > 0 && LexLess(s[0].bytes, x.bytes)
    requires Sorted(Insert(x, s[1..]))
    requires multiset(Insert(x, s[1..])) == multiset(s[1..]) + multiset{x}
    ensures Sorted(Insert(x, s))
    ensures multiset(Insert(x, s)) == multiset(s) + multiset{x}
  {
    var r := Insert(x, s[1..]);
    MultisetCons(s);
    SortedTailAbove(s, 0);
    forall e | e in r ensures !LexLess(e.bytes, s[0].bytes) {
      assert e in multiset(r);
      if e == x {
        LexLessAsymmetric(s[0].bytes, x.bytes);
      } else {
        assert e in multiset(s[1..]);
      }
    }
    SortedCons(s[0], r);
  }

  lemma {:induction false} InsertCorrect(x: View, s: seq<View>)
    requires Sorted(s)
    ensures Sorted(Insert(x, s))
    ensures multiset(Insert(x, s)) == multiset(s) + multiset{x}
    decreases |s|
  {
    if |s| == 0 || !LexLess(s[0].bytes, x.bytes) {
      InsertFront(x, s);
    } else {
      SortedSuffix(s, 1);
      InsertCorrect(x, s[1..]);
      InsertLater(x, s);
    }
  }

  lemma SortStep(s: seq<View>)
    requires |s| > 0
    requires Sorted(SortRecords(s[1..])) && multiset(SortRecords(s[1..])) == multiset(s[1..])
    ensures Sorted(SortRecords(s)) && multiset(SortRecords(s)) == multiset(s)
  {
    InsertCorrect(s[0], SortRecords(s[1..]));
    MultisetCons(s);
  }

  /** The sequential sort yields an ascending permutation of its input. */
  lemma {:induction false} SortRecordsCorrect(s: seq<View>)
    ensures Sorted(SortRecords(s))
    ensures multiset(SortRecords(s)) == multiset(s)
    ensures |SortRecords(s)| == |s|
    decreases |s|
  {
    if |s| > 0 {
      SortRecordsCorrect(s[1..]);
      SortStep(s);
    }
    assert |multiset(SortRecords(s))| == |multiset(s)|;
  }

  /** The sequential branch of `sort_task` on `[min..=max]`. */
  function SortRange(a: seq<View>, min: nat, max: nat): seq<View>
    requires min <= max < |a|
  {
    a[..min] + SortRecords(a[min..max + 1]) + a[max + 1..]
  }

  /** `array[min..=max].sort()` leaves the range as an ascending permutation of
      itself and every index outside it unchanged. */
  lemma SortRangeCorrect(a: seq<View>, min: nat, max: nat)
    requires min <= max < |a|
    ensures |SortRange(a, min, max)| == |a|
    ensures forall i :: 0 <= i < |a| && (i < min || max < i) ==> SortRange(a, min, max)[i] == a[i]
    ensures Sorted(SortRange(a, min, max)[min..max + 1])
    ensures multiset(SortRange(a, min, max)[min..max + 1]) == multiset(a[min..max + 1])
  {
    SortRecordsCorrect(a[min..max + 1]);
    var r := SortRange(a, min, max);
    assert r[min..max + 1] == SortRecords(a[min..max + 1]);
  }

  /** Sorting the full range is sorting the whole record array. */
  lemma SortRangeWhole(a: seq<View>)
    requires |a| > 0
    ensures SortRange(a, 0, |a| - 1) == SortRecords(a)
  {
    assert a[..0] == [] && a[0..|a|] == a && a[|a|..] == [];
  }

  /** `it_works` (sorter/src/main.rs): the whole of three records. */
  lemma SortAllThree()
    ensures Contents(SortRange([View(0, [10, 2, 4]), View(4, [10, 2]), View(7, [1, 2, 3])], 0, 2))
            == [[1, 2, 3], [10, 2], [10, 2, 4]]
  {
    var a := [View(0, [10, 2, 4]), View(4, [10, 2]), View(7, [1, 2, 3])];
    assert a[0..3] == a;
    assert LexLess([1, 2, 3], [10, 2]);
    assert LexLess([10, 2], [10, 2, 4]) by {
      PrefixIsLess([10, 2], [10, 2, 4]);
    }
    assert SortRecords([a[2]]) == [a[2]];
    assert Insert(a[1], [a[2]]) == [a[2], a[1]];
    assert Insert(a[0], [a[1]]) == [a[1], a[0]];
    assert Insert(a[0], [a[2], a[1]]) == [a[2], a[1], a[0]];
  }

  /** `test_range_sorting`: only indices 1..=2 are sorted. */
  lemma SortLastTwo()
    ensures Contents(SortRange([View(0, [10, 2, 4]), View(4, [10, 2]), View(7, [1, 2, 3])], 1, 2))
            == [[10, 2, 4], [1, 2, 3], [10, 2]]
  {
    var a := [View(0, [10, 2, 4]), View(4, [10, 2]), View(7, [1, 2, 3])];
    assert a[1..3] == [a[1], a[2]];
    assert LexLess([1, 2, 3], [10, 2]);
    assert SortRecords([a[2]]) == [a[2]];
    assert Insert(a[1], [a[2]]) == [a[2], a[1]];
  }

  // ---------------------------------------------------------------------------
  // `Sorter::merge`.

  /** What is left to emit once the cursors stand at `i` and `j`; the loop runs
      while both are below `m`, the shorter of the two lengths. */
  function MergeFrom(left: seq<View>, right: seq<View>, i: nat, j: nat, m: nat): seq<View>
    requires m <= |left| && m <= |right| && i <= |left| && j <= |right|
    decreases |left| - i + |right| - j
  {
    if i < m && j < m then
      if LexLess(left[i].bytes, right[j].bytes) then [left[i]] + MergeFrom(left, right, i + 1, j, m)
      else [right[j]] + MergeFrom(left, right, i, j + 1, m)
    else left[i..] + right[j..]
  }

  /** The result of `merge(left, right)`. */
  function Merged(left: seq<View>, right: seq<View>): seq<View>
  {
    MergeFrom(left, right, 0, 0, Min(|left|, |right|))
  }

  method Merge(left: seq<View>, right: seq<View>) returns (target: seq<View>)
    ensures target == Merged(left, right)
  {
    var m := Min(|left|, |right|);
    target := [];
    var i, j := 0, 0;
    while i < m && j < m
      invariant i <= m && j <= m
      invariant target + MergeFrom(left, right, i, j, m) == Merged(left, right)
      decreases |left| - i + |right| - j
    {
      if LexLess(left[i].bytes, right[j].bytes) {
        MergeTakesLeft(left, right, i, j, m);
        ShiftOne(target, left[i], MergeFrom(left, right, i + 1, j, m), MergeFrom(left, right, i, j, m));
        target := target + [left[i]];
        i := i + 1;
      } else {
        MergeTakesRight(left, right, i, j, m);
        ShiftOne(target, right[j], MergeFrom(left, right, i, j + 1, m), MergeFrom(left, right, i, j, m));
        target := target + [right[j]];
        j := j + 1;
      }
    }
    MergeRest(left, right, i, j, m);
    ShiftTwo(target, left[i..], right[j..], Merged(left, right));
    if i < |left| {
      target := target + left[i..];
    }
    if j < |right| {
      target := target + right[j..];
    }
  }

  lemma MergeTakesLeft(left: seq<View>, right: seq<View>, i: nat, j: nat, m: nat)
    requires m <= |left| && m <= |right| && i < m && j < m
    requires LexLess(left[i].bytes, right[j].bytes)
    ensures MergeFrom(left, right, i, j, m) == [left[i]] + MergeFrom(left, right, i + 1, j, m)
  {
  }

  lemma MergeTakesRight(left: seq<View>, right: seq<View>, i: nat, j: nat, m: nat)
    requires m <= |left| && m <= |right| && i < m && j < m
    requires !LexLess(left[i].bytes, right[j].bytes)
    ensures MergeFrom(left, right, i, j, m) == [right[j]] + MergeFrom(left, right, i, j + 1, m)
  {
  }

  lemma MergeRest(left: seq<View>, right: seq<View>, i: nat, j: nat, m: nat)
    requires m <= |left| && m <= |right| && i <= |left| && j <= |right|
    requires !(i < m && j < m)
    ensures MergeFrom(left, right, i, j, m) == left[i..] + right[j..]
  {
  }

  lemma ShiftOne(t: seq<View>, x: View, rest: seq<View>, ms: seq<View>)
    requires ms == [x] + rest
    ensures (t + [x]) + rest == t + ms
  {
  }

  /** The two tail copies, either of which may be empty. */
  lemma ShiftTwo(t: seq<View>, a: seq<View>, b: seq<View>, whole: seq<View>)
    requires t + (a + b) == whole
    ensures (t + a) + b == whole
    ensures |a| == 0 ==> t + b == whole
    ensures |b| == 0 ==> t + a == whole
    ensures |a| == 0 && |b| == 0 ==> t == whole
  {
    if |a| == 0 {
      assert a + b == b;
    }
    if |b| == 0 {
      assert a + b == a && (t + a) + b == t + a;
    }
  }

  lemma SliceCons(s: seq<View>, i: nat)
    requires i < |s|
    ensures s[i..] == [s[i]] + s[i + 1..]
  {
  }

  lemma PermCons(ms: seq<View>, x: View, rest: seq<View>, a: seq<View>, a': seq<View>, b: seq<View>)
    requires ms == [x] + rest && a == [x] + a'
    requires multiset(rest) == multiset(a') + multiset(b)
    ensures multiset(ms) == multiset(a) + multiset(b)
    ensures multiset(ms) == multiset(b) + multiset(a)
  {
  }

  lemma PermAppend(ms: seq<View>, a: seq<View>, b: seq<View>)
    requires ms == a + b
    ensures multiset(ms) == multiset(a) + multiset(b)
  {
  }

  lemma {:induction false} MergeFromPermutation(left: seq<View>, right: seq<View>, i: nat, j: nat, m: nat)
    requires m <= |left| && m <= |right| && i <= |left| && j <= |right|
    ensures multiset(MergeFrom(left, right, i, j, m)) == multiset(left[i..]) + multiset(right[j..])
    decreases |left| - i + |right| - j
  {
    if i < m && j < m {
      if LexLess(left[i].bytes, right[j].bytes) {
        MergeFromPermutation(left, right, i + 1, j, m);
        PermLeftStep(left, right, i, j, m);
      } else {
        MergeFromPermutation(left, right, i, j + 1, m);
        PermRightStep(left, right, i, j, m);
      }
    } else {
      MergeRest(left, right, i, j, m);
      PermAppend(MergeFrom(left, right, i, j, m), left[i..], right[j..]);
    }
  }

  lemma PermLeftStep(left: seq<View>, right: seq<View>, i: nat, j: nat, m: nat)
    requires m <= |left| && m <= |right| && i < m && j < m
    requires LexLess(left[i].bytes, right[j].bytes)
    requires multiset(MergeFrom(left, right, i + 1, j, m)) == multiset(left[i + 1..]) + multiset(right[j..])
    ensures multiset(MergeFrom(left, right, i, j, m)) == multiset(left[i..]) + multiset(right[j..])
  {
    MergeTakesLeft(left, right, i, j, m);
    SliceCons(left, i);
    PermCons(MergeFrom(left, right, i, j, m), left[i], MergeFrom(left, right, i + 1, j, m),
             left[i..], left[i + 1..], right[j..]);
  }

  lemma PermRightStep(left: seq<View>, right: seq<View>, i: nat, j: nat, m: nat)
    requires m <= |left| && m <= |right| && i < m && j < m
    requires !LexLess(left[i].bytes, right[j].bytes)
    requires multiset(MergeFrom(left, right, i, j + 1, m)) == multiset(left[i..]) + multiset(right[j + 1..])
    ensures multiset(MergeFrom(left, right, i, j, m)) == multiset(left[i..]) + multiset(right[j..])
  {
    MergeTakesRight(left, right, i, j, m);
    SliceCons(right, j);
    PermCons(MergeFrom(left, right, i, j, m), right[j], MergeFrom(left, right, i, j + 1, m),
             right[j..], right[j + 1..], left[i..]);
  }

  /** `merge` returns every entry of both inputs, each exactly once. */
  lemma MergePermutation(left: seq<View>, right: seq<View>)
    ensures multiset(Merged(left, right)) == multiset(left + right)
    ensures |Merged(left, right)| == |left| + |right|
  {
    MergeFromPermutation(left, right, 0, 0, Min(|left|, |right|));
    assert left[0..] == left && right[0..] == right;
    assert |multiset(Merged(left, right))| == |multiset(left + right)|;
  }

  /** The rest copied after the loop is ascending when one side is used up. */
  lemma SortedRest(ms: seq<View>, a: seq<View>, b: seq<View>)
    requires ms == a + b
    requires (|a| == 0 && Sorted(b)) || (|b| == 0 && Sorted(a))
    ensures Sorted(ms)
  {
    if |a| == 0 {
      assert ms == b;
    } else {
      assert ms == a;
    }
  }

  lemma {:induction false} MergeFromSorted(left: seq<View>, right: seq<View>, i: nat, j: nat, m: nat)
    requires |left| == m && |right| == m && i <= m && j <= m
    requires Sorted(left) && Sorted(right)
    ensures Sorted(MergeFrom(left, right, i, j, m))
    decreases m - i + m - j
  {
    if i < m && j < m {
      if LexLess(left[i].bytes, right[j].bytes) {
        var t := MergeFrom(left, right, i + 1, j, m);
        MergeTakesLeft(left, right, i, j, m);
        MergeFromSorted(left, right, i + 1, j, m);
        MergeFromPermutation(left, right, i + 1, j, m);
        SortedTailAbove(left, i);
        LexLessAsymmetric(left[i].bytes, right[j].bytes);
        SortedFromAbove(right, j, left[i].bytes);
        AboveOfMultiset(left[i].bytes, t, left[i + 1..], right[j..]);
        SortedCons(left[i], t);
      } else {
        var t := MergeFrom(left, right, i, j + 1, m);
        MergeTakesRight(left, right, i, j, m);
        MergeFromSorted(left, right, i, j + 1, m);
        MergeFromPermutation(left, right, i, j + 1, m);
        SortedFromAbove(left, i, right[j].bytes);
        SortedTailAbove(right, j);
        AboveOfMultiset(right[j].bytes, t, left[i..], right[j + 1..]);
        SortedCons(right[j], t);
      }
    } else {
      MergeRest(left, right, i, j, m);
      SortedSuffix(left, i);
      SortedSuffix(right, j);
      SortedRest(MergeFrom(left, right, i, j, m), left[i..], right[j..]);
    }
  }

  /** In an ascending sequence nothing after position k is below entry k. */
  lemma SortedTailAbove(s: seq<View>, k: nat)
    requires Sorted(s) && k < |s|
    ensures forall e :: e in s[k + 1..] ==> !LexLess(e.bytes, s[k].bytes)
  {
    forall e | e in s[k + 1..] ensures !LexLess(e.bytes, s[k].bytes) {
      var p :| k + 1 <= p < |s| && s[p] == e;
    }
  }

  /** In an ascending sequence, a lower bound of entry k bounds all that follow. */
  lemma SortedFromAbove(s: seq<View>, k: nat, x: seq<u8>)
    requires Sorted(s) && k < |s| && !LexLess(s[k].bytes, x)
    ensures forall e :: e in s[k..] ==> !LexLess(e.bytes, x)
  {
    forall e | e in s[k..] ensures !LexLess(e.bytes, x) {
      var p :| k <= p < |s| && s[p] == e;
      if p > k {
        LeTrans(x, s[k].bytes, e.bytes);
      }
    }
  }

  /** A lower bound of two sequences bounds any rearrangement of both. */
  lemma AboveOfMultiset(x: seq<u8>, t: seq<View>, a: seq<View>, b: seq<View>)
    requires multiset(t) == multiset(a) + multiset(b)
    requires forall e :: e in a ==> !LexLess(e.bytes, x)
    requires forall e :: e in b ==> !LexLess(e.bytes, x)
    ensures forall e :: e in t ==> !LexLess(e.bytes, x)
  {
    forall e | e in t ensures !LexLess(e.bytes, x) {
      assert e in multiset(t);
      assert e in multiset(a) || e in multiset(b);
    }
  }

  /** Two ascending inputs of equal length merge into an ascending output. */
  lemma MergeSortedEqualLengths(left: seq<View>, right: seq<View>)
    requires |left| == |right|
    requires Sorted(left) && Sorted(right)
    ensures Sorted(Merged(left, right))
  {
    MergeFromSorted(left, right, 0, 0, |left|);
  }

  /** Unequal lengths need not: the loop stops at the shorter length on both
      cursors, and the rest of `left` is appended before the rest of `right`. */
  lemma MergeUnequalLengthsUnsorted()
    ensures var left := [View(0, [3])];
            var right := [View(2, [1]), View(4, [2])];
            Sorted(left) && Sorted(right) &&
            Merged(left, right) == [right[0], left[0], right[1]] &&
            !Sorted(Merged(left, right))
  {
    var left := [View(0, [3])];
    var right := [View(2, [1]), View(4, [2])];
    assert LexLess([1], [3]);
    assert LexLess([1], [2]);
    assert LexLess([2], [3]);
    assert MergeFrom(left, right, 0, 1, 1) == left[0..] + right[1..];
    var r := Merged(left, right);
    assert r[1] == left[0] && r[2] == right[1];
  }

  /** The left entry is taken only when it is strictly less: at any step of
      the loop where the two lines are equal, the right one is emitted. */
  lemma MergeTieTakesRight(left: seq<View>, right: seq<View>, i: nat, j: nat, m: nat)
    requires m <= |left| && m <= |right| && i < m && j < m
    requires left[i].bytes == right[j].bytes
    ensures MergeFrom(left, right, i, j, m) == [right[j]] + MergeFrom(left, right, i, j + 1, m)
  {
    LexLessIrreflexive(left[i].bytes);
  }

  // ---------------------------------------------------------------------------
  // The split branch of `sort_task`.

  /** After both halves are done: `merge(array.split_at(middle))` spliced over
      `[min..=max]`. The split is of the whole array, not of the range. */
  function SpliceMerged(a: seq<View>, min: nat, max: nat): seq<View>
    requires min + SIZE_THRESHOLD <= max < |a|
  {
    a[..min] + Merged(a[..min + SIZE_THRESHOLD], a[min + SIZE_THRESHOLD..]) + a[max + 1..]
  }

  /** The splice keeps the array's length exactly when the range is the whole
      array; otherwise it grows. */
  lemma SpliceLength(a: seq<View>, min: nat, max: nat)
    requires min + SIZE_THRESHOLD <= max < |a|
    ensures |SpliceMerged(a, min, max)| >= |a|
    ensures |SpliceMerged(a, min, max)| == |a| <==> min == 0 && max == |a| - 1
  {
    var m := min + SIZE_THRESHOLD;
    MergePermutation(a[..m], a[m..]);
    assert a[..m] + a[m..] == a;
  }

  /** Over the whole array the splice is a permutation; over a proper range it
      duplicates every record outside `[min..=max]`. */
  lemma SpliceMultiset(a: seq<View>, min: nat, max: nat)
    requires min + SIZE_THRESHOLD <= max < |a|
    ensures multiset(SpliceMerged(a, min, max)) == multiset(a[..min]) + multiset(a) + multiset(a[max + 1..])
  {
    var m := min + SIZE_THRESHOLD;
    MergePermutation(a[..m], a[m..]);
    assert a[..m] + a[m..] == a;
  }

  // ---------------------------------------------------------------------------
  // Worker count.

  datatype PoolSize = PoolSize(queueSize: nat, workers: nat)

  /** The pool `Sorter::new` creates for a file of `fileSize` bytes. */
  function PoolFor(fileSize: nat): (p: Option<PoolSize>)
    ensures p.None? <==> fileSize < 4 * SIZE_THRESHOLD
    ensures p.Some? ==> 2 <= p.value.workers <= MAX_WORKERS_COUNT
    ensures p.Some? ==> p.value.queueSize == 2 * p.value.workers
    ensures fileSize >= 2 * SIZE_THRESHOLD * MAX_WORKERS_COUNT ==> p == Some(PoolSize(40, 20))
  {
    var workers := Min((fileSize / SIZE_THRESHOLD) / 2, MAX_WORKERS_COUNT);
    if workers <= 1 then None else Some(PoolSize(workers * 2, workers))
  }

  // ---------------------------------------------------------------------------
  // Write-back.

  /** `data` written over `buf` from offset 0, stopping at the end of `buf`. */
  function Overwrite(buf: seq<u8>, data: seq<u8>): (r: seq<u8>)
    ensures |r| == |buf|
  {
    seq(|buf|, i requires 0 <= i < |buf| => if i < |data| then data[i] else buf[i])
  }

  lemma {:induction false} FlatAppend(a: seq<seq<u8>>, b: seq<seq<u8>>)
    ensures Flat(a + b) == Flat(a) + Flat(b)
    decreases |a|
  {
    if a == [] {
      assert a + b == b;
    } else {
      FlatAppend(a[1..], b);
      assert (a + b)[1..] == a[1..] + b;
      assert (a + b)[0] == a[0];
    }
  }

  lemma {:induction false} FlatIsJoinPlusNewline(cs: seq<seq<u8>>)
    requires |cs| > 0
    ensures Flat(cs) == Join(cs) + [NEWLINE]
    decreases |cs|
  {
    if |cs| > 1 {
      FlatIsJoinPlusNewline(cs[1..]);
    }
  }

  /** Cutting the list of lines cuts the stream. */
  lemma FlatCut(cs: seq<seq<u8>>, n: nat)
    requires n <= |cs|
    ensures Flat(cs) == Flat(cs[..n]) + Flat(cs[n..])
  {
    var front, back := cs[..n], cs[n..];
    assert front + back == cs;
    FlatAppend(front, back);
  }

  lemma FlatSingle(c: seq<u8>)
    ensures Flat([c]) == c + [NEWLINE]
  {
    assert [c][1..] == [];
  }

  /** Line `k` and its '\n' extend the stream of the lines before it. */
  lemma FlatSnoc(cs: seq<seq<u8>>, k: nat)
    requires k < |cs|
    ensures Flat(cs[..k + 1]) == Flat(cs[..k]) + (cs[k] + [NEWLINE])
  {
    FlatAppend(cs[..k], [cs[k]]);
    assert cs[..k + 1] == cs[..k] + [cs[k]];
    FlatSingle(cs[k]);
  }

  /** Where line `k` and its '\n' sit in the stream of all lines. */
  lemma FlatLineAt(cs: seq<seq<u8>>, k: nat, stream: seq<u8>, start: nat)
    requires k < |cs| && stream == Flat(cs) && start == |Flat(cs[..k])|
    ensures start + |cs[k]| < |stream|
    ensures stream[start..start + |cs[k]| + 1] == cs[k] + [NEWLINE]
    ensures |Flat(cs[..k + 1])| == start + |cs[k]| + 1
  {
    FlatCut(cs, k + 1);
    FlatSnoc(cs, k);
    SliceOfConcat(Flat(cs[..k]), cs[k] + [NEWLINE], Flat(cs[..k + 1]), Flat(cs[k + 1..]), stream);
  }

  lemma SliceOfConcat(a: seq<u8>, b: seq<u8>, ab: seq<u8>, c: seq<u8>, s: seq<u8>)
    requires s == ab + c && ab == a + b
    ensures |a| + |b| <= |s| && s[|a|..|a| + |b|] == b
  {
  }

  /** Copying byte `n` of the stream extends the copied prefix by one. */
  lemma CopyOneByte(prev: seq<u8>, data: seq<u8>, buf: seq<u8>, n: nat)
    requires n < |prev| && n < |data| && |buf| == |prev|
    requires prev == data[..n] + buf[n..]
    ensures prev[n := data[n]] == data[..n + 1] + buf[n + 1..]
  {
  }

  /** Once the copy stops, at the end of the buffer or of the stream, the
      buffer holds the copied prefix and the untouched rest. */
  lemma OverwriteStopped(buf: seq<u8>, data: seq<u8>, n: nat)
    requires n <= |buf| && n <= |data| && (n == |buf| || n == |data|)
    ensures Overwrite(buf, data) == data[..n] + buf[n..]
  {
  }

  function TotalLength(cs: seq<seq<u8>>): nat
  {
    if |cs| == 0 then 0 else |cs[0]| + TotalLength(cs[1..])
  }

  lemma {:induction false} JoinLength(cs: seq<seq<u8>>)
    requires |cs| > 0
    ensures |Join(cs)| == TotalLength(cs) + |cs| - 1
    decreases |cs|
  {
    if |cs| > 1 {
      JoinLength(cs[1..]);
    }
  }

  lemma {:induction false} InsertTotalLength(x: View, s: seq<View>)
    ensures TotalLength(Contents(Insert(x, s))) == |x.bytes| + TotalLength(Contents(s))
    decreases |s|
  {
    if |s| == 0 || !LexLess(s[0].bytes, x.bytes) {
      assert Contents([x] + s)[1..] == Contents(s);
    } else {
      InsertTotalLength(x, s[1..]);
      assert Contents([s[0]] + Insert(x, s[1..]))[1..] == Contents(Insert(x, s[1..]));
      assert Contents(s)[1..] == Contents(s[1..]);
    }
  }

  lemma {:induction false} SortTotalLength(s: seq<View>)
    ensures TotalLength(Contents(SortRecords(s))) == TotalLength(Contents(s))
    decreases |s|
  {
    if s != [] {
      SortTotalLength(s[1..]);
      InsertTotalLength(s[0], SortRecords(s[1..]));
      assert Contents(s)[1..] == Contents(s[1..]);
    }
  }

  /** The headline: with no pool, the buffer after `sort` is the '\n'-join of
      the sorted lines of the buffer before it; the last '\n' of the written
      stream falls just past the end and is dropped. */
  lemma WriteBackOfSortedLines(buf: seq<u8>)
    ensures var sorted := SortRecords(Lines(buf));
            Overwrite(buf, Flat(Contents(sorted))) == Join(Contents(sorted))
  {
    var lines := Lines(buf);
    var sorted := SortRecords(lines);
    LinesCount(buf);
    SortRecordsCorrect(lines);
    LinesJoin(buf);
    JoinLength(Contents(lines));
    JoinLength(Contents(sorted));
    SortTotalLength(lines);
    FlatIsJoinPlusNewline(Contents(sorted));
    var j := Join(Contents(sorted));
    assert |j| == |buf|;
    var f := Flat(Contents(sorted));
    assert Overwrite(buf, f) == j by {
      forall i | 0 <= i < |buf| ensures Overwrite(buf, f)[i] == j[i] {
        assert f[i] == j[i];
      }
    }
  }

  // ---------------------------------------------------------------------------

  /** `Sorter`: the mapped file, the pool decision and the record array. */
  class Sorter {
    /** The mapped view: `file_offset`, with `file_size == buffer.Length`. */
    const buffer: array<u8>
    /** `pool`: only its presence and size matter to the model. */
    const pool: Option<PoolSize>
    /** `array`: the record views. */
    var records: seq<View>

    /** `Sorter::new`; on text that is not UTF-8 the source panics, which
        `Partition` models as an error. */
    constructor (buffer: array<u8>)
      requires Partition(buffer[..]).Ok?
      ensures this.buffer == buffer && pool == PoolFor(buffer.Length)
      ensures records == Lines(buffer[..]) && |records| > 0
    {
      this.buffer := buffer;
      pool := PoolFor(buffer.Length);
      records := Lines(buffer[..]);
      LinesCount(buffer[..]);
    }

    /** `Sorter::sort_task` on `[min..=max]`, with the two child tasks run one
        after the other. */
    method SortTask(min: nat, max: nat)
      requires min <= max < |records|
      modifies this
      ensures |records| >= old(|records|)
      ensures records[..min] == old(records[..min])
      ensures pool.None? || max - min + 1 < 2 * SIZE_THRESHOLD ==>
                records == SortRange(old(records), min, max)
      decreases max - min
    {
      if pool.None? || max - min + 1 < 2 * SIZE_THRESHOLD {
        records := SortRange(records, min, max);
        SortRangeCorrect(old(records), min, max);
        return;
      }
      var middle := min + SIZE_THRESHOLD;
      SortTask(min, middle);
      SortTask(middle + 1, max);
      var left, right := records[..middle], records[middle..];
      var merged := Merge(left, right);
      ghost var before := records;
      records := records[..min] + merged + records[max + 1..];
      assert records == SpliceMerged(before, min, max);
      SpliceLength(before, min, max);
    }

    /** `Sorter::sort`: sort every record, snapshot their bytes, and write them
        back followed by '\n', never at or past the end of the buffer. The
        sequential branch sorts the whole array when there is no pool or fewer
        than `2 * SIZE_THRESHOLD` records, pool or not. */
    method Sort()
      requires |records| > 0
      modifies this, buffer
      ensures buffer[..] == Overwrite(old(buffer[..]), Flat(Contents(records)))
      ensures pool.None? || |old(records)| < 2 * SIZE_THRESHOLD ==> records == SortRecords(old(records))
      ensures (pool.None? || |old(records)| < 2 * SIZE_THRESHOLD) && old(records) == Lines(old(buffer[..])) ==>
                buffer[..] == Join(Contents(records)) && Sorted(records) &&
                multiset(records) == multiset(old(records))
    {
      SortTask(0, |records| - 1);
      if pool.None? || |old(records)| < 2 * SIZE_THRESHOLD {
        SortRangeWhole(old(records));
        SortRecordsCorrect(old(records));
        if old(records) == Lines(old(buffer[..])) {
          WriteBackOfSortedLines(old(buffer[..]));
        }
      }
      WriteBack(Contents(records));
    }

    /** The copy loop of `Sorter::sort`: every line and a '\n' after it, one
        byte at a time, stopping when the write pointer reaches the end. */
    method WriteBack(lines: seq<seq<u8>>)
      modifies buffer
      ensures buffer[..] == Overwrite(old(buffer[..]), Flat(lines))
    {
      ghost var stream := Flat(lines);
      ghost var original := buffer[..];
      var ptr := 0;
      var k := 0;
      assert lines[..0] == [];
      while k < |lines|
        invariant k <= |lines|
        invariant ptr == |Flat(lines[..k])| <= buffer.Length && ptr <= |stream|
        invariant buffer[..] == stream[..ptr] + original[ptr..]
      {
        FlatLineAt(lines, k, stream, ptr);
        var full;
        ptr, full := CopyLine(lines[k], stream, original, ptr);
        if full {
          OverwriteStopped(original, stream, ptr);
          return;
        }
        k := k + 1;
      }
      assert lines[..k] == lines;
      OverwriteStopped(original, stream, ptr);
    }

    /** One pass of the outer copy loop: the bytes of `line`, then '\n', each
        written only while the pointer is short of the end. */
    method CopyLine(line: seq<u8>, ghost stream: seq<u8>, ghost original: seq<u8>, start: nat)
      returns (ptr: nat, full: bool)
      requires |original| == buffer.Length && start <= buffer.Length
      requires start + |line| < |stream| && stream[start..start + |line| + 1] == line + [NEWLINE]
      requires buffer[..] == stream[..start] + original[start..]
      modifies buffer
      ensures ptr <= buffer.Length && ptr <= |stream|
      ensures buffer[..] == stream[..ptr] + original[ptr..]
      ensures full <==> ptr == buffer.Length
      ensures !full ==> ptr == start + |line| + 1
      ensures full ==> ptr <= start + |line| + 1
    {
      ptr := start;
      var b := 0;
      while b < |line|
        invariant b <= |line| && ptr == start + b <= buffer.Length
        invariant buffer[..] == stream[..ptr] + original[ptr..]
      {
        if ptr == buffer.Length {
          return ptr, true;
        }
        assert stream[ptr] == stream[start..start + |line| + 1][b] == line[b];
        ghost var prev := buffer[..];
        buffer[ptr] := line[b];
        assert buffer[..] == prev[ptr := stream[ptr]];
        CopyOneByte(prev, stream, original, ptr);
        ptr := ptr + 1;
        b := b + 1;
      }
      if ptr == buffer.Length {
        return ptr, true;
      }
      assert stream[ptr] == stream[start..start + |line| + 1][|line|] == NEWLINE;
      ghost var prev := buffer[..];
      buffer[ptr] := NEWLINE;
      assert buffer[..] == prev[ptr := stream[ptr]];
      CopyOneByte(prev, stream, original, ptr);
      ptr := ptr + 1;
      full := ptr == buffer.Length;
    }
  }
}
