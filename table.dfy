/** The editable text grid of the window application: a table of rows, each a
    strip of equally wide cells holding UTF-16 text, with at most one cell
    selected for typing.

    Rectangles are the GDI `RECT` with unbounded coordinates. Drawing and text
    measurement go through GDI; the width of a character is therefore a
    parameter (`charWidth`). */
module Table {
  import opened Base

  /** `VK_BACK` and `VK_ESCAPE`. */
  const VK_BACK: int := 0x08
  const VK_ESCAPE: int := 0x1B

  /** Which of the table's two property sets a cell points at. */
  datatype CeilPropertiesType = Pressed | Released

  function RectWidth(r: Rect): int { r.right - r.left }

  function RectHeight(r: Rect): int { r.bottom - r.top }

  /** `offset_rect`: move all four edges. */
  function OffsetRect(r: Rect, dx: int, dy: int): (s: Rect)
    ensures RectWidth(s) == RectWidth(r) && RectHeight(s) == RectHeight(r)
    ensures s.left == r.left + dx && s.top == r.top + dy
  {
    Rect(r.left + dx, r.top + dy, r.right + dx, r.bottom + dy)
  }

  /** Offsets compose, and moving back undoes a move. */
  lemma OffsetRectComposes(r: Rect, dx1: int, dy1: int, dx2: int, dy2: int)
    ensures OffsetRect(OffsetRect(r, dx1, dy1), dx2, dy2) == OffsetRect(r, dx1 + dx2, dy1 + dy2)
    ensures OffsetRect(OffsetRect(r, dx1, dy1), -dx1, -dy1) == r
  {
  }

  /** `as usize` of a (32-bit) difference: a negative value wraps. */
  function UsizeOf(d: int): (n: nat)
    requires -0x8000_0000 <= d
    ensures d >= 0 ==> n == d
    ensures d < 0 ==> n >= 0x1_0000_0000
  {
    if d >= 0 then d else 0x1_0000_0000_0000_0000 + d
  }

  /** The rectangle of cell `j` of a row laid out from (`startX`, `startY`)
      with cells `ceilWidth` wide and `height` tall: it spans
      `[startX + j * ceilWidth, startX + (j + 1) * ceilWidth]` horizontally
      and the row's full height. */
  function CeilRect(startX: int, startY: int, ceilWidth: int, height: int, j: nat): Rect {
    Rect(startX + j * ceilWidth, startY, startX + (j + 1) * ceilWidth, startY + height)
  }

  /** `a / b` on `usize`: each of `count` equal parts of `total`. */
  function Share(total: nat, count: nat): nat
    requires count > 0
  {
    total / count
  }

  /** Moving cell `j`'s rectangle by one cell width gives cell `j + 1`'s,
      which is how the layout loops build the cells. */
  lemma CeilRectNext(startX: int, startY: int, ceilWidth: int, height: int, j: nat)
    ensures OffsetRect(CeilRect(startX, startY, ceilWidth, height, j), ceilWidth, 0) ==
            CeilRect(startX, startY, ceilWidth, height, j + 1)
  {
    MulSucc(j, ceilWidth);
    MulSucc(j + 1, ceilWidth);
  }

  /** The column `TextRow::ceil` selects for an offset: the cell under it,
      or the last cell when the offset lies past the row. */
  function ColumnOf(offset: nat, ceilWidth: nat, count: nat): (j: nat)
    requires ceilWidth > 0 && count > 0
    ensures j < count
    ensures offset < count * ceilWidth ==> j * ceilWidth <= offset < (j + 1) * ceilWidth
    ensures offset >= count * ceilWidth ==> j == count - 1
  {
    var q := offset / ceilWidth;
    DivBounds(offset, ceilWidth);
    if q >= count then
      MulLeMono(count, q, ceilWidth);
      count - 1
    else
      MulLeMono(q + 1, count, ceilWidth);
      q
  }

  /** The quotient brackets the dividend. */
  lemma DivBounds(a: nat, b: nat)
    requires b > 0
    ensures (a / b) * b <= a < (a / b + 1) * b
  {
    var q := a / b;
    assert a == q * b + a % b;
    assert (q + 1) * b == q * b + b;
  }

  /** Multiplying by a natural number keeps the order. */
  lemma {:induction false} MulLeMono(x: nat, y: nat, b: nat)
    requires x <= y
    ensures x * b <= y * b
  {
    if x < y {
      MulLeMono(x, y - 1, b);
      assert y * b == (y - 1) * b + b;
    }
  }

  /** The text with its last unit removed; empty text stays empty. */
  function Erased(text: seq<u16>): (r: seq<u16>)
    ensures |text| == 0 ==> r == text
    ensures |text| > 0 ==> r + [text[|text| - 1]] == text
  {
    text[..if |text| == 0 then 0 else |text| - 1]
  }

  /** Erasing undoes appending. */
  lemma EraseUndoesAppend(text: seq<u16>, letter: u16)
    ensures Erased(text + [letter]) == text
  {
    assert (text + [letter])[..|text|] == text;
  }

  // ---------------------------------------------------------------------------
  // Greedy word wrap

  /** The greedy line breaking of `text_lines_cnt`: the lines used so far and
      the width left on the last one. A letter that does not fit in what is
      left starts a new line. */
  function Wrap(text: seq<u16>, charWidth: u16 -> int, lineWidth: int): (r: (nat, int))
    ensures 1 <= r.0 <= |text| + 1
  {
    if |text| == 0 then (1, lineWidth)
    else
      var (lines, rest) := Wrap(text[..|text| - 1], charWidth, lineWidth);
      var w := charWidth(text[|text| - 1]);
      if rest - w >= 0 then (lines, rest - w) else (lines + 1, lineWidth - w)
  }

  /** How many letters of width `w` fit on a line: the `chars_per_line` of the
      fixed-width formula. */
  function PerLine(lineWidth: nat, w: nat): (k: nat)
    requires 0 < w <= lineWidth
    ensures k >= 1 && k * w <= lineWidth < (k + 1) * w
  {
    var k := lineWidth / w;
    DivBounds(lineWidth, w);
    assert (k + 1) * w == k * w + w;
    k
  }

  /** For letters of one width `w` that fits the line, after `n > 0` letters
      the last line holds `((n - 1) mod k) + 1` of them. */
  lemma {:induction false} WrapUniformRest(text: seq<u16>, charWidth: u16 -> int, lineWidth: nat, w: nat)
    requires 0 < w <= lineWidth && |text| > 0
    requires forall i :: 0 <= i < |text| ==> charWidth(text[i]) == w
    ensures var k := PerLine(lineWidth, w);
            Wrap(text, charWidth, lineWidth) ==
              ((|text| - 1) / k + 1, lineWidth - ((|text| - 1) % k + 1) * w)
  {
    var k := PerLine(lineWidth, w);
    var n := |text|;
    if n == 1 {
      assert Wrap(text[..0], charWidth, lineWidth) == (1, lineWidth);
      UniformFirst(w, k);
    } else {
      var prefix := text[..n - 1];
      WrapUniformRest(prefix, charWidth, lineWidth, w);
      assert charWidth(text[n - 1]) == w;
      UniformStep(lineWidth, w, k, n - 2);
    }
  }

  /** The first letter of uniform width sits alone on line 1. */
  lemma UniformFirst(w: nat, k: nat)
    requires k >= 1
    ensures 0 / k + 1 == 1 && (0 % k + 1) * w == w
  {
  }

  /** One more letter of uniform width `w`, after `p + 1` letters of which
      `p % k + 1` are on the last line: it fits exactly when the line is not
      yet full, and the formula moves on to `p + 2` letters. */
  lemma UniformStep(lineWidth: nat, w: nat, k: nat, p: nat)
    requires k >= 1 && k * w <= lineWidth < (k + 1) * w && w > 0
    ensures var rest := lineWidth - (p % k + 1) * w;
            (rest - w >= 0 ==>
               (p + 1) / k == p / k && lineWidth - ((p + 1) % k + 1) * w == rest - w) &&
            (rest - w < 0 ==>
               (p + 1) / k == p / k + 1 && lineWidth - ((p + 1) % k + 1) * w == lineWidth - w)
  {
    var m := p % k;
    DivModSucc(p, k);
    MulSucc(m + 1, w);
    if m + 1 < k {
      MulLeMono(m + 2, k, w);
      MulSucc(m + 2, w);
    } else {
      MulSucc(k, w);
    }
  }

  /** Moving from `p` to `p + 1` either bumps the remainder or wraps it to 0
      and bumps the quotient. */
  lemma DivModSucc(p: nat, k: nat)
    requires k >= 1
    ensures p % k + 1 < k ==> (p + 1) / k == p / k && (p + 1) % k == p % k + 1
    ensures p % k + 1 == k ==> (p + 1) / k == p / k + 1 && (p + 1) % k == 0
  {
    var q, r := p / k, p % k;
    assert p == q * k + r && r < k;
    if r + 1 < k {
      DivModUnique(p + 1, k, q, r + 1);
    } else {
      MulSucc(q, k);
      DivModUnique(p + 1, k, q + 1, 0);
    }
  }

  lemma MulSucc(a: int, b: int)
    ensures (a + 1) * b == a * b + b
  {
  }

  /** Quotient and remainder are the only such pair. */
  lemma DivModUnique(a: nat, k: nat, q: nat, r: nat)
    requires k > 0 && a == q * k + r && r < k
    ensures a / k == q && a % k == r
  {
    var q' := a / k;
    DivBounds(a, k);
    MulSucc(q, k);
    MulSucc(q', k);
    if q' > q {
      MulLeMono(q + 1, q', k);
    } else if q' < q {
      MulLeMono(q' + 1, q, k);
    }
    assert a == q' * k + a % k;
  }

  /** With letters of one width `w` that fits the line, the greedy count is
      the fixed-width count `ceil(n / chars_per_line)` for non-empty text. */
  lemma WrapUniform(text: seq<u16>, charWidth: u16 -> int, lineWidth: nat, w: nat)
    requires 0 < w <= lineWidth && |text| > 0
    requires forall i :: 0 <= i < |text| ==> charWidth(text[i]) == w
    ensures var k := PerLine(lineWidth, w);
            Wrap(text, charWidth, lineWidth).0 ==
              |text| / k + (if |text| % k != 0 then 1 else 0)
  {
    var k := PerLine(lineWidth, w);
    WrapUniformRest(text, charWidth, lineWidth, w);
    DivModSucc(|text| - 1, k);
  }

  // ---------------------------------------------------------------------------
  // TextCeil

  /** `TextCeil`: one cell of the grid. */
  class TextCeil {
    var text: seq<u16>
    var rect: Rect
    /** The property set the cell is drawn with; `None` is the null pointer
        `TextCeil::new` starts with. */
    var properties: Option<CeilPropertiesType>

    /** `TextCeil::new`. */
    constructor (rect: Rect)
      ensures text == [] && this.rect == rect && properties.None?
    {
      text := [];
      this.rect := rect;
      properties := None;
    }

    /** `TextCeil::set_properties`. */
    method SetProperties(p: CeilPropertiesType)
      modifies this
      ensures properties == Some(p) && text == old(text) && rect == old(rect)
    {
      properties := Some(p);
    }

    /** `TextCeil::append_letter`. */
    method AppendLetter(letter: u16)
      modifies this
      ensures text == old(text) + [letter]
      ensures rect == old(rect) && properties == old(properties)
    {
      text := text + [letter];
    }

    /** `TextCeil::erase_letter`: truncate to the saturated `len - 1`. */
    method EraseLetter()
      modifies this
      ensures text == Erased(old(text))
      ensures rect == old(rect) && properties == old(properties)
    {
      var len := if |text| == 0 then 0 else |text| - 1;
      text := text[..len];
    }

    /** `TextCeil::height`: `(bottom - top) as usize`. */
    function Height(): (h: nat)
      reads this
      requires -0x8000_0000 <= rect.bottom - rect.top
      ensures rect.top <= rect.bottom ==> h == rect.bottom - rect.top
    {
      UsizeOf(rect.bottom - rect.top)
    }

    /** `TextCeil::set_height`: moves the bottom edge only. */
    method SetHeight(height: nat)
      modifies this
      ensures rect == old(rect).(bottom := old(rect).top + height)
      ensures Height() == height
      ensures text == old(text) && properties == old(properties)
    {
      rect := rect.(bottom := rect.top + height);
    }

    /** `TextCeil::text_lines_cnt`, with the GDI character widths given as
        `charWidth`. */
    method TextLinesCnt(charWidth: u16 -> int) returns (lines: nat)
      ensures lines == Wrap(text, charWidth, RectWidth(rect)).0
      ensures 1 <= lines <= |text| + 1 && (|text| == 0 ==> lines == 1)
    {
      var lineWidth := RectWidth(rect);
      var restWidth := lineWidth;
      lines := 1;
      for i := 0 to |text|
        invariant (lines, restWidth) == Wrap(text[..i], charWidth, lineWidth)
      {
        assert text[..i + 1][..i] == text[..i];
        var letterWidth := charWidth(text[i]);
        if restWidth - letterWidth >= 0 {
          restWidth := restWidth - letterWidth;
        } else {
          lines := lines + 1;
          restWidth := lineWidth - letterWidth;
        }
      }
      assert text[..|text|] == text;
    }
  }

  // ---------------------------------------------------------------------------
  // TextRow

  /** `TextRow`: a strip of cells. */
  class TextRow {
    var row: seq<TextCeil>
    var maxHeight: nat
    var minHeight: nat
    var ceilWidth: nat
    var rect: Rect

    /** The row has cells, each its own object. */
    predicate Valid()
      reads this
    {
      |row| > 0 && forall a, b :: 0 <= a < b < |row| ==> row[a] != row[b]
    }

    /** The geometry `new` and `resize` give a row of `width` by `height` at
        (`startX`, `startY`): `|row|` cells of width `width / |row|` side by
        side, each as tall as the row. */
    ghost predicate Laid(width: nat, height: nat, startX: int, startY: int)
      reads this, row
    {
      |row| > 0 &&
      ceilWidth == Share(width, |row|) &&
      rect == Rect(startX, startY, startX + width, startY + height) &&
      forall j :: 0 <= j < |row| ==> row[j].rect == CeilRect(startX, startY, ceilWidth, height, j)
    }

    /** `TextRow::new`, which asserts `column_cnt >= 1`. */
    constructor (width: nat, height: nat, startX: nat, startY: nat, columnCnt: nat)
      requires columnCnt >= 1
      ensures Valid() && |row| == columnCnt && Laid(width, height, startX, startY)
      ensures maxHeight == height && minHeight == height
      ensures forall j :: 0 <= j < |row| ==> fresh(row[j]) && row[j].text == [] && row[j].properties.None?
    {
      var cw := Share(width, columnCnt);
      var ceilRect := Rect(startX, startY, startX + cw, startY + height);
      var cells: seq<TextCeil> := [];
      for j := 0 to columnCnt
        invariant |cells| == j
        invariant ceilRect == CeilRect(startX, startY, cw, height, j)
        invariant forall k :: 0 <= k < j ==> fresh(cells[k])
        invariant forall k :: 0 <= k < j ==> cells[k].rect == CeilRect(startX, startY, cw, height, k)
        invariant forall k :: 0 <= k < j ==> cells[k].text == [] && cells[k].properties.None?
        invariant forall a, b :: 0 <= a < b < j ==> cells[a] != cells[b]
      {
        var ceil := new TextCeil(ceilRect);
        ghost var before := cells;
        cells := cells + [ceil];
        assert forall k :: 0 <= k < j ==> cells[k] == before[k] && cells[k] != ceil;
        CeilRectNext(startX, startY, cw, height, j);
        ceilRect := OffsetRect(ceilRect, cw, 0);
      }
      row := cells;
      maxHeight := height;
      minHeight := height;
      ceilWidth := cw;
      rect := Rect(startX, startY, startX + width, startY + height);
    }

    /** `TextRow::set_properties`. */
    method SetProperties(p: CeilPropertiesType)
      requires Valid()
      modifies row
      ensures forall j :: 0 <= j < |row| ==> row[j].properties == Some(p)
      ensures forall j :: 0 <= j < |row| ==> row[j].text == old(row[j].text) && row[j].rect == old(row[j].rect)
    {
      for i := 0 to |row|
        invariant forall j :: 0 <= j < i ==> row[j].properties == Some(p)
        invariant forall j :: 0 <= j < |row| ==> row[j].text == old(row[j].text) && row[j].rect == old(row[j].rect)
      {
        row[i].SetProperties(p);
      }
    }

    /** `TextRow::resize`: lay the same cells out again; their text stays. */
    method Resize(width: nat, height: nat, startX: int, startY: int)
      requires Valid()
      modifies this, row
      ensures Valid() && row == old(row) && Laid(width, height, startX, startY)
      ensures maxHeight == height && minHeight == height
      ensures forall j :: 0 <= j < |row| ==> row[j].text == old(row[j].text) && row[j].properties == old(row[j].properties)
    {
      var cw := Share(width, |row|);
      var ceilRect := Rect(startX, startY, startX + cw, startY + height);
      for i := 0 to |row|
        modifies row
        invariant ceilRect == CeilRect(startX, startY, cw, height, i)
        invariant forall j :: 0 <= j < i ==> row[j].rect == CeilRect(startX, startY, cw, height, j)
        invariant forall j :: 0 <= j < |row| ==> row[j].text == old(row[j].text) && row[j].properties == old(row[j].properties)
      {
        assert forall j :: 0 <= j < |row| && j != i ==> row[j] != row[i];
        row[i].rect := ceilRect;
        CeilRectNext(startX, startY, cw, height, i);
        ceilRect := OffsetRect(ceilRect, cw, 0);
      }
      rect := Rect(startX, startY, startX + width, startY + height);
      ceilWidth := cw;
      maxHeight := height;
      minHeight := height;
    }

    /** `TextRow::shift`: move the row and every cell by the same amount. */
    method Shift(dx: int, dy: int)
      requires Valid()
      modifies this, row
      ensures Valid() && row == old(row) && rect == OffsetRect(old(rect), dx, dy)
      ensures ceilWidth == old(ceilWidth) && maxHeight == old(maxHeight) && minHeight == old(minHeight)
      ensures forall j :: 0 <= j < |row| ==> row[j].rect == OffsetRect(old(row[j].rect), dx, dy)
      ensures forall j :: 0 <= j < |row| ==> row[j].text == old(row[j].text) && row[j].properties == old(row[j].properties)
    {
      rect := OffsetRect(rect, dx, dy);
      for i := 0 to |row|
        modifies row
        invariant rect == OffsetRect(old(rect), dx, dy)
        invariant forall j :: 0 <= j < i ==> row[j].rect == OffsetRect(old(row[j].rect), dx, dy)
        invariant forall j :: i <= j < |row| ==> row[j].rect == old(row[j].rect)
        invariant forall j :: 0 <= j < |row| ==> row[j].text == old(row[j].text) && row[j].properties == old(row[j].properties)
      {
        row[i].rect := OffsetRect(row[i].rect, dx, dy);
      }
    }

    /** `TextRow::ceil`: the cell at a horizontal offset, clamped to the last
        one; a zero cell width is a division by zero in the source. */
    method Ceil(columnOffset: nat) returns (ceil: TextCeil)
      requires Valid() && ceilWidth > 0
      ensures ceil == row[ColumnOf(columnOffset, ceilWidth, |row|)]
    {
      var ceilIndex := Min(columnOffset / ceilWidth, |row| - 1);
      ceil := row[ceilIndex];
    }
  }

  /** In a laid-out row, the cell `ceil` picks for an offset inside the row
      is the one whose rectangle contains `startX + offset`. */
  lemma CeilContainsOffset(width: nat, height: nat, startX: int, startY: int, count: nat, offset: nat)
    requires count > 0 && Share(width, count) > 0 && offset < count * Share(width, count)
    ensures var cw := Share(width, count);
            var r := CeilRect(startX, startY, cw, height, ColumnOf(offset, cw, count));
            r.left <= startX + offset < r.right
  {
    var cw := Share(width, count);
    MulSucc(ColumnOf(offset, cw, count), cw);
  }

  /** The rectangles of a sequence of rows, in order. */
  function RectsOf(rs: seq<TextRow>): (r: seq<Rect>)
    reads rs
    ensures |r| == |rs| && forall i :: 0 <= i < |rs| ==> r[i] == rs[i].rect
  {
    if |rs| == 0 then [] else [rs[0].rect] + RectsOf(rs[1..])
  }

  /** Every row has cells and a non-zero cell width, so `TextRow::ceil`
      does not divide by zero. */
  predicate RowsReady(rs: seq<TextRow>)
    reads rs
  {
    forall i :: 0 <= i < |rs| ==> rs[i].Valid() && rs[i].ceilWidth > 0
  }

  /** The row `handle_click` picks for the point (`x`, `y`): the first whose
      rectangle contains it by `pointInRect`, or the last row when none
      does. */
  function ClickedRow(rects: seq<Rect>, x: int, y: int, pointInRect: (Rect, int, int) -> bool): (k: nat)
    requires |rects| > 0
    ensures k < |rects|
    ensures forall i :: 0 <= i < k ==> !pointInRect(rects[i], x, y)
    ensures k < |rects| - 1 ==> pointInRect(rects[k], x, y)
    ensures (exists i :: 0 <= i < |rects| && pointInRect(rects[i], x, y)) <==> pointInRect(rects[k], x, y)
  {
    if |rects| == 1 || pointInRect(rects[0], x, y) then 0
    else 1 + ClickedRow(rects[1..], x, y, pointInRect)
  }

  // ---------------------------------------------------------------------------
  // TextTable

  /** `TextTable`. The selected cell and its row are the two pointer fields
      `chosen_ceil` and `chosen_row`. */
  class TextTable {
    var rows: seq<TextRow>
    var chosenCeil: Option<TextCeil>
    var chosenRow: Option<(TextRow, nat)>
    var rowWidth: nat
    var rowHeight: nat
    var columnCnt: nat
    var tableWidth: nat
    var tableHeight: nat

    /** Both selection fields are set together, to a cell of the row at the
        recorded index. */
    predicate Valid()
      reads this, rows
    {
      |rows| > 0 &&
      (chosenCeil.Some? <==> chosenRow.Some?) &&
      (chosenRow.Some? ==>
         chosenRow.value.1 < |rows| && rows[chosenRow.value.1] == chosenRow.value.0 &&
         chosenCeil.value in chosenRow.value.0.row)
    }

    /** The cell of row `i` under the horizontal offset `x`, as
        `TextRow::ceil` finds it. */
    function CellAt(i: nat, x: nat): TextCeil
      reads this, rows
      requires RowsReady(rows) && i < |rows|
    {
      rows[i].row[ColumnOf(x, rows[i].ceilWidth, |rows[i].row|)]
    }

    /** The cell `handle_click` presses for a click at (`x`, `y`): the cell
        under `x` in the row `ClickedRow` picks. */
    function ClickedCell(x: nat, y: int, pointInRect: (Rect, int, int) -> bool): TextCeil
      reads this, rows
      requires |rows| > 0 && RowsReady(rows)
    {
      CellAt(ClickedRow(RectsOf(rows), x, y, pointInRect), x)
    }

    /** The click lies inside the table (edges included). */
    predicate InTable(x: int, y: int)
      reads this
    {
      0 <= x <= tableWidth && 0 <= y <= tableHeight
    }

    /** The only cell typing can change. */
    function Chosen(): set<object>
      reads this
    {
      if chosenCeil.Some? then {chosenCeil.value} else {}
    }

    /** `TextTable::new`: `row_cnt` rows of the window's width, each
        `height / row_cnt` tall, stacked from the top. The window is a client
        rectangle, whose origin and extent are never negative. */
    constructor (client: Rect, rowCnt: nat, columnCnt: nat)
      requires rowCnt > 0 && columnCnt >= 1
      requires 0 <= client.left <= client.right && 0 <= client.top <= client.bottom
      ensures Valid() && chosenCeil.None? && chosenRow.None?
      ensures |rows| == rowCnt && this.columnCnt == columnCnt
      ensures tableWidth == RectWidth(client) && tableHeight == RectHeight(client)
      ensures rowWidth == tableWidth && rowHeight == Share(tableHeight, rowCnt)
      ensures forall i :: 0 <= i < rowCnt ==>
                rows[i].Valid() && |rows[i].row| == columnCnt &&
                rows[i].Laid(rowWidth, rowHeight, client.left, client.top + i * rowHeight)
      ensures forall i, j :: 0 <= i < rowCnt && 0 <= j < |rows[i].row| ==>
                rows[i].row[j].text == [] && rows[i].row[j].properties == Some(Released)
    {
      var width: nat := RectWidth(client);
      var height: nat := RectHeight(client);
      var rh := Share(height, rowCnt);
      var startY: nat := client.top;
      var startX: nat := client.left;
      var rs: seq<TextRow> := [];
      for i := 0 to rowCnt
        invariant |rs| == i && startY == client.top + i * rh
        invariant forall k :: 0 <= k < i ==> fresh(rs[k]) && rs[k].Valid() && |rs[k].row| == columnCnt
        invariant forall k :: 0 <= k < i ==> rs[k].Laid(width, rh, startX, client.top + k * rh)
        invariant forall k, j :: 0 <= k < i && 0 <= j < |rs[k].row| ==> fresh(rs[k].row[j])
        invariant forall k, j :: 0 <= k < i && 0 <= j < |rs[k].row| ==>
                    rs[k].row[j].text == [] && rs[k].row[j].properties == Some(Released)
      {
        var row := NewReleasedRow(width, rh, startX, startY, columnCnt);
        ghost var before := rs;
        rs := rs + [row];
        assert forall k :: 0 <= k < i ==> rs[k] == before[k];
        MulSucc(i, rh);
        startY := startY + rh;
      }
      rows := rs;
      this.columnCnt := columnCnt;
      rowHeight := rh;
      rowWidth := width;
      tableWidth := width;
      tableHeight := height;
      chosenCeil := None;
      chosenRow := None;
    }

    /** One row of `TextTable::new`: `TextRow::new`, then every cell gets the
        released property set. */
    static method NewReleasedRow(width: nat, height: nat, startX: nat, startY: nat, columnCnt: nat)
      returns (row: TextRow)
      requires columnCnt >= 1
      ensures fresh(row) && row.Valid() && |row.row| == columnCnt
      ensures row.Laid(width, height, startX, startY)
      ensures forall j :: 0 <= j < |row.row| ==>
                fresh(row.row[j]) && row.row[j].text == [] && row.row[j].properties == Some(Released)
    {
      row := new TextRow(width, height, startX, startY, columnCnt);
      row.SetProperties(Released);
    }

    /** `TextTable::release_old_ceil`: give the selected cell back its
        released look and clear both selection fields. */
    method ReleaseOldCeil()
      requires Valid()
      modifies this, Chosen()
      ensures Valid() && chosenCeil.None? && chosenRow.None?
      ensures rows == old(rows) && rowWidth == old(rowWidth) && rowHeight == old(rowHeight)
      ensures columnCnt == old(columnCnt) && tableWidth == old(tableWidth) && tableHeight == old(tableHeight)
      ensures old(chosenCeil).Some? ==>
                old(chosenCeil).value.properties == Some(Released) &&
                old(chosenCeil).value.text == old(chosenCeil.value.text) &&
                old(chosenCeil).value.rect == old(chosenCeil.value.rect)
    {
      if chosenCeil.Some? {
        chosenCeil.value.SetProperties(Released);
        chosenRow := None;
        chosenCeil := None;
      }
    }

    /** `TextTable::handle_click`: outside the table nothing happens.
        Otherwise the first row whose rectangle contains the point (or the
        last row) is chosen, the old selection is released, and the cell of
        that row under `x` is pressed and becomes the selection. The
        `utils::point_in_rect` test is the parameter `pointInRect`. */
    method HandleClick(x: int, y: int, pointInRect: (Rect, int, int) -> bool)
      requires Valid() && RowsReady(rows)
      modifies this, Chosen(), if InTable(x, y) then {ClickedCell(x, y, pointInRect)} else {}
      ensures Valid() && rows == old(rows)
      ensures rowWidth == old(rowWidth) && rowHeight == old(rowHeight) && columnCnt == old(columnCnt)
      ensures tableWidth == old(tableWidth) && tableHeight == old(tableHeight)
      ensures !InTable(x, y) ==> unchanged(this) && unchanged(Chosen())
      ensures InTable(x, y) ==>
                var k := old(ClickedRow(RectsOf(rows), x, y, pointInRect));
                chosenRow == Some((rows[k], k)) && chosenCeil == Some(old(ClickedCell(x, y, pointInRect)))
      ensures InTable(x, y) ==>
                var cell := chosenCeil.value;
                cell.properties == Some(Pressed) && cell.text == old(cell.text) && cell.rect == old(cell.rect)
      ensures InTable(x, y) && old(chosenCeil).Some? && old(chosenCeil).value != chosenCeil.value ==>
                old(chosenCeil).value.properties == Some(Released) &&
                old(chosenCeil).value.text == old(chosenCeil.value.text) &&
                old(chosenCeil).value.rect == old(chosenCeil.value.rect)
    {
      if x < 0 || x > tableWidth || y < 0 || y > tableHeight {
        return;
      }
      var rowIndex := FindClickedRow(x, y, pointInRect);
      Select(rowIndex, x);
    }

    /** The end of `handle_click` once the row is known: release the old
        selection, then press the cell of row `rowIndex` under `x` and select
        it together with its row. */
    method Select(rowIndex: nat, x: nat)
      requires Valid() && RowsReady(rows) && rowIndex < |rows|
      modifies this, Chosen(), {CellAt(rowIndex, x)}
      ensures Valid() && rows == old(rows)
      ensures rowWidth == old(rowWidth) && rowHeight == old(rowHeight) && columnCnt == old(columnCnt)
      ensures tableWidth == old(tableWidth) && tableHeight == old(tableHeight)
      ensures chosenRow == Some((rows[rowIndex], rowIndex)) && chosenCeil == Some(old(CellAt(rowIndex, x)))
      ensures var cell := chosenCeil.value;
              cell.properties == Some(Pressed) && cell.text == old(cell.text) && cell.rect == old(cell.rect)
      ensures old(chosenCeil).Some? && old(chosenCeil).value != chosenCeil.value ==>
                old(chosenCeil).value.properties == Some(Released) &&
                old(chosenCeil).value.text == old(chosenCeil.value.text) &&
                old(chosenCeil).value.rect == old(chosenCeil.value.rect)
    {
      ghost var target := CellAt(rowIndex, x);
      var row := rows[rowIndex];
      ReleaseOldCeil();
      assert target.text == old(target.text) && target.rect == old(target.rect);
      var ceil := row.Ceil(x);
      ceil.SetProperties(Pressed);
      chosenCeil := Some(ceil);
      chosenRow := Some((row, rowIndex));
    }

    /** The row search of `handle_click`: the first row whose rectangle
        contains the point, else the last row. */
    method FindClickedRow(x: int, y: int, pointInRect: (Rect, int, int) -> bool) returns (rowIndex: nat)
      requires |rows| > 0
      ensures rowIndex == ClickedRow(RectsOf(rows), x, y, pointInRect)
    {
      ghost var rects := RectsOf(rows);
      rowIndex := |rows|;
      var i := 0;
      while i < |rows|
        invariant 0 <= i <= |rows| && rowIndex == |rows|
        invariant forall j :: 0 <= j < i ==> !pointInRect(rects[j], x, y)
      {
        if pointInRect(rows[i].rect, x, y) {
          rowIndex := i;
          break;
        }
        i := i + 1;
      }
      if rowIndex == |rows| {
        rowIndex := |rows| - 1;
      }
    }

    /** `TextTable::handle_type` up to the change of text: with nothing
        selected nothing happens; ESC releases the selection; BACK erases a
        unit and any other key is appended as a UTF-16 unit (`key as u16`). */
    method HandleType(key: int)
      requires Valid()
      modifies this, Chosen()
      ensures Valid() && rows == old(rows)
      ensures rowWidth == old(rowWidth) && rowHeight == old(rowHeight) && columnCnt == old(columnCnt)
      ensures tableWidth == old(tableWidth) && tableHeight == old(tableHeight)
      ensures old(chosenCeil).None? ==> unchanged(this)
      ensures old(chosenCeil).Some? ==> old(chosenCeil).value.rect == old(chosenCeil.value.rect)
      ensures old(chosenCeil).Some? && key == VK_ESCAPE ==>
                chosenCeil.None? && chosenRow.None? &&
                old(chosenCeil).value.properties == Some(Released) &&
                old(chosenCeil).value.text == old(chosenCeil.value.text)
      ensures old(chosenCeil).Some? && key != VK_ESCAPE ==>
                chosenCeil == old(chosenCeil) && chosenRow == old(chosenRow) &&
                chosenCeil.value.properties == old(chosenCeil.value.properties) &&
                chosenCeil.value.text ==
                  if key == VK_BACK then Erased(old(chosenCeil.value.text))
                  else old(chosenCeil.value.text) + [(key % 0x1_0000) as u16]
    {
      if chosenCeil.None? {
        return;
      }
      var ceil := chosenCeil.value;
      if key == VK_ESCAPE {
        ReleaseOldCeil();
        return;
      }
      if key != VK_BACK {
        ceil.AppendLetter((key % 0x1_0000) as u16);
      } else {
        ceil.EraseLetter();
      }
    }
  }
}
