/**
  Building a frame from the grid and reading it in the browser: every cell's text and link, and
  every row's wrap flag, arrive as they were on the grid.
*/
module FrameBuilder {
  import opened Common
  import opened GridRows
  import opened Bytes
  import opened RendererState
  import opened SnapshotFormat
  import opened Snapshot
  import opened SnapshotState
  import opened CellCodec
  import LC = LinkCollector
  import S = Scrollback

  /** The grid lines a frame shows, `None` where a line is outside the grid. */
  datatype Screen = Screen(rows: seq<Option<Row>>, cols: nat)

  predicate ScreenOk(sc: Screen) {
    forall r :: 0 <= r < |sc.rows| && sc.rows[r].Some? ==> |sc.rows[r].value.cells| >= sc.cols
  }

  function Total(sc: Screen): nat { |sc.rows| * sc.cols }

  lemma RowOfCell(sc: Screen, i: nat)
    requires i < Total(sc)
    ensures sc.cols > 0 && i / sc.cols < |sc.rows| && i % sc.cols < sc.cols
  {
    assert sc.cols > 0;
    Multiple(i / sc.cols - |sc.rows|, sc.cols);
    assert (i / sc.cols - |sc.rows|) * sc.cols == i - i % sc.cols - Total(sc);
  }

  lemma Multiple(k: int, d: nat)
    ensures k >= 0 ==> k * d >= 0
    ensures k >= 1 ==> k * d >= d
    ensures k <= -1 ==> k * d + d <= 0
  {
    if k >= 1 {
      assert k * d == (k - 1) * d + d;
    } else if k <= -1 {
      assert k * d + d == (k + 1) * d;
    }
  }

  /** The grid cell shown at flat index `i`. */
  function CellAt(sc: Screen, i: nat): Option<Cell>
    requires ScreenOk(sc) && i < Total(sc)
  {
    RowOfCell(sc, i);
    match sc.rows[i / sc.cols]
    case None => None
    case Some(row) => Some(row.cells[i % sc.cols])
  }

  function UriOf(cell: Cell): Option<LC.Uri> {
    if cell.extra.Some? then cell.extra.value.uri else None
  }

  /** The hyperlink of the grid cell shown at `i`. */
  function UriAt(sc: Screen, i: nat): Option<LC.Uri>
    requires ScreenOk(sc) && i < Total(sc)
  {
    match CellAt(sc, i) case None => None case Some(cell) => UriOf(cell)
  }

  /** All hyperlinks on the screen that can have an id. */
  function ScreenUris(sc: Screen): set<LC.Uri>
    requires ScreenOk(sc)
  {
    set i | 0 <= i < Total(sc) && UriAt(sc, i).Some? && LC.Acceptable(UriAt(sc, i).value) :: UriAt(sc, i).value
  }

  /** The buffers a frame is gathered in. */
  datatype Buffers = Buffers(cells: seq<Byte>, overflow: map<nat, seq<Byte>>, links: LC.Links)

  function BytesAt(b: Buffers, i: nat): seq<Byte>
    requires (i + 1) * CELL_SIZE <= |b.cells|
  {
    b.cells[i * CELL_SIZE..(i + 1) * CELL_SIZE]
  }

  const BLANK: seq<Byte> := [0, 0, 0, 0, 0, 0, 0, 0, 0, 0, 0, 0]

  predicate Untouched(b: Buffers, i: nat)
    requires (i + 1) * CELL_SIZE <= |b.cells|
  {
    BytesAt(b, i) == BLANK && i !in b.overflow && LC.LinkAt(b.links, i) == 0
  }

  /** Why a cell with a hyperlink may end up without one. */
  predicate Refused(links: LC.Links, uri: LC.Uri) {
    !LC.Acceptable(uri) || (links.lastId >= LC.MAX_LINK_ID && uri !in links.byUri)
  }

  predicate LinkDone(links: LC.Links, i: nat, cell: Cell) {
    match UriOf(cell)
    case None => LC.LinkAt(links, i) == 0
    case Some(uri) => if LC.LinkAt(links, i) == 0 then Refused(links, uri) else LC.ResolvesTo(links, i, uri)
  }

  /** Cell `i` is written: its bytes, its overflow text and its link, with the link flag to match. */
  predicate Written(b: Buffers, i: nat, cell: Cell)
    requires (i + 1) * CELL_SIZE <= |b.cells|
  {
    && BytesAt(b, i) == CellBytes(cell, LC.LinkAt(b.links, i) != 0, [0, 0, 0])
    && (i in b.overflow <==> Overflows(cell)) && (i in b.overflow ==> b.overflow[i] == Grapheme(cell))
    && LinkDone(b.links, i, cell)
  }

  predicate Done(b: Buffers, sc: Screen, i: nat)
    requires ScreenOk(sc) && i < Total(sc) && (i + 1) * CELL_SIZE <= |b.cells|
  {
    match CellAt(sc, i)
    case None => Untouched(b, i)
    case Some(cell) => Written(b, i, cell)
  }

  /** The table holds only links of the screen, one id each. */
  predicate Counted(links: LC.Links, sc: Screen)
    requires ScreenOk(sc)
  {
    links.byUri.Keys <= ScreenUris(sc) && |links.byUri| == links.lastId
  }

  /** The frame's first `n` cells are done and the others untouched. */
  ghost predicate Progress(b: Buffers, sc: Screen, n: nat) {
    && ScreenOk(sc) && n <= Total(sc) && |b.cells| == Total(sc) * CELL_SIZE && LC.Valid(b.links, Total(sc))
    && (forall i :: 0 <= i < n ==> Done(b, sc, i))
    && (forall i :: n <= i < Total(sc) ==> Untouched(b, i))
    && (forall k :: k in b.overflow ==> k < Total(sc)) && Counted(b.links, sc)
  }

  // ---------------------------------------------------------------------------------------
  // One more cell
  // ---------------------------------------------------------------------------------------

  lemma SpliceElsewhere(s: seq<Byte>, flat: nat, piece: seq<Byte>, i: nat)
    requires |piece| == CELL_SIZE && (flat + 1) * CELL_SIZE <= |s| && (i + 1) * CELL_SIZE <= |s|
    ensures Splice(s, flat * CELL_SIZE, piece)[i * CELL_SIZE..(i + 1) * CELL_SIZE]
         == if i == flat then piece else s[i * CELL_SIZE..(i + 1) * CELL_SIZE]
  {
    var r := Splice(s, flat * CELL_SIZE, piece);
    if i < flat {
      assert (i + 1) * CELL_SIZE <= flat * CELL_SIZE;
    } else if i > flat {
      assert i * CELL_SIZE >= flat * CELL_SIZE + CELL_SIZE;
    }
  }

  /** What writing cell `flat` does to the buffers. */
  ghost predicate WritesOne(b: Buffers, b': Buffers, total: nat, flat: nat, cell: Cell) {
    && flat < total && |b.cells| == total * CELL_SIZE
    && b'.links == (if UriOf(cell).Some? then LC.Recorded(b.links, flat, total, UriOf(cell).value) else b.links)
    && b'.cells == Splice(b.cells, flat * CELL_SIZE, CellBytes(cell, LC.LinkAt(b'.links, flat) != 0, [0, 0, 0]))
    && b'.overflow == (if Overflows(cell) then b.overflow[flat := Grapheme(cell)] else b.overflow)
  }

  lemma RefusedStays(t: LC.Links, t': LC.Links, uri: LC.Uri)
    requires LC.Extends(t, t') && Refused(t, uri)
    ensures Refused(t', uri)
  {
  }

  /** The links after writing one cell. */
  lemma LinksAfter(t: LC.Links, t': LC.Links, total: nat, flat: nat, cell: Cell)
    requires LC.Valid(t, total) && flat < total && LC.LinkAt(t, flat) == 0
    requires t' == if UriOf(cell).Some? then LC.Recorded(t, flat, total, UriOf(cell).value) else t
    ensures LC.Valid(t', total) && LC.Extends(t, t') && LinkDone(t', flat, cell)
    ensures forall i: nat :: i != flat ==> LC.LinkAt(t', i) == LC.LinkAt(t, i)
  {
    match UriOf(cell)
    case None =>
    case Some(uri) =>
      LC.RecordedKeeps(t, flat, total, uri);
      hide LC.Recorded, LC.Valid;
      if !LC.ResolvesTo(t', flat, uri) {
        RefusedStays(t, t', uri);
      }
  }

  lemma DoneStays(b: Buffers, b': Buffers, sc: Screen, flat: nat, cell: Cell, i: nat)
    requires ScreenOk(sc) && WritesOne(b, b', Total(sc), flat, cell) && i < Total(sc) && i != flat
    requires LC.Extends(b.links, b'.links) && LC.LinkAt(b'.links, i) == LC.LinkAt(b.links, i)
    ensures Untouched(b, i) ==> Untouched(b', i)
    ensures Done(b, sc, i) ==> Done(b', sc, i)
  {
    hide Grapheme, Overflows, CellBytes, LC.Recorded;
    SpliceElsewhere(b.cells, flat, CellBytes(cell, LC.LinkAt(b'.links, flat) != 0, [0, 0, 0]), i);
    hide Splice;
    assert BytesAt(b', i) == BytesAt(b, i);
    assert i in b'.overflow <==> i in b.overflow;
    hide WritesOne, BytesAt;
    if Done(b, sc, i) && CellAt(sc, i).Some? {
      var other := CellAt(sc, i).value;
      hide CellAt;
      if UriOf(other).Some? && Refused(b.links, UriOf(other).value) {
        RefusedStays(b.links, b'.links, UriOf(other).value);
      }
      assert LinkDone(b'.links, i, other);
    }
  }

  lemma WrittenNow(b: Buffers, b': Buffers, total: nat, flat: nat, cell: Cell)
    requires WritesOne(b, b', total, flat, cell) && Untouched(b, flat) && LinkDone(b'.links, flat, cell)
    ensures (flat + 1) * CELL_SIZE <= |b'.cells| && Written(b', flat, cell)
  {
    hide Grapheme, Overflows, CellBytes, LC.Recorded, LinkDone;
    SpliceElsewhere(b.cells, flat, CellBytes(cell, LC.LinkAt(b'.links, flat) != 0, [0, 0, 0]), flat);
  }

  lemma CountedAfter(t: LC.Links, t': LC.Links, sc: Screen, flat: nat)
    requires ScreenOk(sc) && flat < Total(sc) && CellAt(sc, flat).Some? && Counted(t, sc)
    requires t' == if UriAt(sc, flat).Some? then LC.Recorded(t, flat, Total(sc), UriAt(sc, flat).value) else t
    ensures Counted(t', sc)
  {
    if UriAt(sc, flat).Some? {
      var uri := UriAt(sc, flat).value;
      LC.TableStep(t, flat, Total(sc), uri);
      if LC.Acceptable(uri) {
        assert uri in ScreenUris(sc);
      }
      hide LC.Recorded, ScreenUris;
    }
  }

  lemma OneMore(b: Buffers, b': Buffers, sc: Screen, n: nat)
    requires Progress(b, sc, n) && n < Total(sc) && CellAt(sc, n).Some?
    requires WritesOne(b, b', Total(sc), n, CellAt(sc, n).value)
    ensures Progress(b', sc, n + 1)
  {
    hide Counted, LC.Valid, LC.Recorded, Grapheme, CellBytes, Overflows, CellAt, Splice, LinkDone;
    hide LC.Extends, Total, BytesAt;
    var total, cell := Total(sc), CellAt(sc, n).value;
    CountedAfter(b.links, b'.links, sc, n);
    assert Untouched(b, n);
    LinksAfter(b.links, b'.links, total, n, cell);
    WrittenNow(b, b', total, n, cell);
    assert Done(b', sc, n);
    assert |b'.cells| == |b.cells|;
    hide Done, Untouched;
    forall i | 0 <= i < total && i != n
      ensures Untouched(b, i) ==> Untouched(b', i)
      ensures Done(b, sc, i) ==> Done(b', sc, i)
    {
      DoneStays(b, b', sc, n, cell, i);
    }
  }

  /** The flat index of a row's first cell. */
  function RowStart(sc: Screen, row: nat): nat { row * sc.cols }

  lemma RowFits(sc: Screen, row: nat)
    requires row < |sc.rows|
    ensures RowStart(sc, row + 1) == RowStart(sc, row) + sc.cols <= Total(sc)
  {
    var left := |sc.rows| - row - 1;
    Multiple(left, sc.cols);
    Distribute(row + 1, left, sc.cols);
    Distribute(row, 1, sc.cols);
  }

  lemma RowEnds(sc: Screen)
    ensures RowStart(sc, 0) == 0 && RowStart(sc, |sc.rows|) == Total(sc)
  {
  }

  lemma Distribute(a: nat, b: nat, d: nat)
    ensures (a + b) * d == a * d + b * d
  {
  }

  lemma CellOfRow(sc: Screen, row: nat, col: nat)
    requires row < |sc.rows| && col < sc.cols
    ensures RowStart(sc, row) + col < Total(sc)
    ensures (RowStart(sc, row) + col) / sc.cols == row && (RowStart(sc, row) + col) % sc.cols == col
  {
    RowFits(sc, row);
    DivMod(sc.cols, row, col);
  }

  lemma DivMod(d: nat, q: nat, r: nat)
    requires r < d
    ensures (q * d + r) / d == q && (q * d + r) % d == r
  {
    var x := q * d + r;
    Multiple(x / d - q, d);
    assert (x / d - q) * d == r - x % d;
  }

  lemma CellAtRow(sc: Screen, row: nat, col: nat)
    requires ScreenOk(sc) && row < |sc.rows| && col < sc.cols
    ensures RowStart(sc, row) + col < Total(sc)
    ensures var cell := CellAt(sc, RowStart(sc, row) + col);
      match sc.rows[row] case None => cell == None case Some(line) => cell == Some(line.cells[col])
  {
    CellOfRow(sc, row, col);
    hide RowStart, Total;
  }

  lemma NothingToDo(b: Buffers, sc: Screen, i: nat)
    requires ScreenOk(sc) && i < Total(sc) && (i + 1) * CELL_SIZE <= |b.cells|
    requires CellAt(sc, i) == None && Untouched(b, i)
    ensures Done(b, sc, i)
  {
    hide CellAt, Untouched;
  }

  lemma SkippedRow(b: Buffers, sc: Screen, row: nat)
    requires row < |sc.rows| && sc.rows[row].None? && RowStart(sc, row) <= Total(sc)
    requires Progress(b, sc, RowStart(sc, row))
    ensures RowStart(sc, row + 1) <= Total(sc) && Progress(b, sc, RowStart(sc, row + 1))
  {
    hide LC.Valid, RowStart, Total, CellAt, Untouched, Counted, Done;
    RowFits(sc, row);
    forall i | RowStart(sc, row) <= i < RowStart(sc, row + 1) ensures Done(b, sc, i) {
      CellAtRow(sc, row, i - RowStart(sc, row));
      NothingToDo(b, sc, i);
    }
  }

  // ---------------------------------------------------------------------------------------
  // Which lines are shown
  // ---------------------------------------------------------------------------------------

  /** The row of the grid line a frame row shows, for a client `offset` lines above the bottom. */
  function ShownRow(g: S.Grid, offset: nat, row: nat): Option<Row> {
    match S.FrameLine(g, offset, row) case None => None case Some(line) => Some(line.row)
  }

  function ScreenOf(g: S.Grid, offset: nat, rows: nat, cols: nat): Screen {
    Screen(seq(rows, r requires 0 <= r => ShownRow(g, offset, r)), cols)
  }

  /** Every line has the columns the frame asks for. */
  predicate Wide(g: S.Grid, cols: nat) {
    forall i :: 0 <= i < |S.Lines(g)| ==> |S.Lines(g)[i].row.cells| >= cols
  }

  lemma ScreenRows(g: S.Grid, offset: nat, rows: nat, cols: nat)
    ensures var sc := ScreenOf(g, offset, rows, cols);
      && |sc.rows| == rows && sc.cols == cols && Total(sc) == rows * cols
      && forall r :: 0 <= r < rows ==> sc.rows[r] == ShownRow(g, offset, r)
  {
    hide ShownRow;
  }

  lemma ScreenOfIsOk(g: S.Grid, offset: nat, rows: nat, cols: nat)
    requires Wide(g, cols)
    ensures ScreenOk(ScreenOf(g, offset, rows, cols)) && |ScreenOf(g, offset, rows, cols).rows| == rows
  {
  }

  /** The line the cell loop goes to, with its early exit for rows above the history. */
  method LineForCells(g: S.Grid, offset: nat, row: nat) returns (line: Option<Row>)
    ensures line == ShownRow(g, offset, row)
  {
    var history := |S.Lines(g)| - |g.screen|;
    var lineIdx: int := row;
    if offset != 0 {
      var histLine := history - offset + row;
      if histLine < 0 {
        return None;
      }
      lineIdx := row - offset;
    }
    if lineIdx < -history || lineIdx >= |g.screen| {
      return None;
    }
    line := Some(S.Lines(g)[lineIdx + history].row);
  }

  /** The line the wrap-flag loop goes to, without that exit: the two loops agree at every offset. */
  method LineForFlags(g: S.Grid, offset: nat, row: nat) returns (line: Option<Row>)
    ensures line == ShownRow(g, offset, row)
  {
    var lineIdx: int := if offset == 0 then row else row - offset;
    var history := |S.Lines(g)| - |g.screen|;
    if lineIdx < -history || lineIdx >= |g.screen| {
      return None;
    }
    line := Some(S.Lines(g)[lineIdx + history].row);
  }

  // ---------------------------------------------------------------------------------------
  // The loops
  // ---------------------------------------------------------------------------------------

  method BuildCells(g: S.Grid, offset: nat, rows: nat, cols: nat) returns (b: Buffers)
    requires Wide(g, cols)
    ensures var sc := ScreenOf(g, offset, rows, cols); Progress(b, sc, Total(sc))
  {
    hide Progress, Wide, ShownRow, RowStart, LC.Valid, ScreenOf, ScreenOk, Total;
    ghost var sc := ScreenOf(g, offset, rows, cols);
    ScreenOfIsOk(g, offset, rows, cols);
    ScreenRows(g, offset, rows, cols);
    var cells := new Byte[rows * cols * CELL_SIZE](_ => 0);
    var overflow: map<nat, seq<Byte>> := map[];
    var links := new LC.Collector();
    StartsUntouched(Buffers(cells[..], overflow, links.Table()), sc);
    RowEnds(sc);
    var row := 0;
    while row < rows
      invariant 0 <= row <= rows && RowStart(sc, row) <= Total(sc) && cells.Length == Total(sc) * CELL_SIZE
      invariant fresh(cells) && fresh(links)
      invariant Progress(Buffers(cells[..], overflow, links.Table()), sc, RowStart(sc, row))
    {
      var line := LineForCells(g, offset, row);
      if line.Some? {
        overflow := BuildRow(sc, row, cols, line.value, cells, overflow, links);
      } else {
        SkippedRow(Buffers(cells[..], overflow, links.Table()), sc, row);
      }
      row := row + 1;
    }
    b := Buffers(cells[..], overflow, links.Table());
  }

  lemma StartsUntouched(b: Buffers, sc: Screen)
    requires ScreenOk(sc) && |b.cells| == Total(sc) * CELL_SIZE && (forall k :: 0 <= k < |b.cells| ==> b.cells[k] == 0)
    requires b.overflow == map[] && b.links == LC.NO_LINKS
    ensures Progress(b, sc, 0)
  {
    forall i | 0 <= i < Total(sc) ensures Untouched(b, i) {
      assert (i + 1) * CELL_SIZE <= |b.cells|;
    }
  }

  method BuildRow(
      ghost sc: Screen, row: nat, cols: nat, gridRow: Row, cells: array<Byte>, overflow: map<nat, seq<Byte>>,
      links: LC.Collector)
    returns (overflow': map<nat, seq<Byte>>)
    requires ScreenOk(sc) && cols == sc.cols && row < |sc.rows| && sc.rows[row] == Some(gridRow)
    requires cells.Length == Total(sc) * CELL_SIZE && RowStart(sc, row) <= Total(sc)
    requires Progress(Buffers(cells[..], overflow, links.Table()), sc, RowStart(sc, row))
    modifies cells, links
    ensures RowStart(sc, row + 1) <= Total(sc)
    ensures Progress(Buffers(cells[..], overflow', links.Table()), sc, RowStart(sc, row + 1))
  {
    hide Progress, CellAt, Total, LC.Valid;
    var rowStart := row * cols;
    assert rowStart == RowStart(sc, row);
    hide RowStart;
    RowFits(sc, row);
    overflow' := overflow;
    var col := 0;
    while col < cols
      invariant 0 <= col <= cols
      invariant Progress(Buffers(cells[..], overflow', links.Table()), sc, rowStart + col)
    {
      CellAtRow(sc, row, col);
      overflow' := BuildCell(sc, rowStart + col, cells.Length / CELL_SIZE, gridRow.cells[col], cells, overflow', links);
      col := col + 1;
    }
  }

  lemma NextCell(b: Buffers, sc: Screen, n: nat)
    requires Progress(b, sc, n) && n < Total(sc)
    ensures LC.Valid(b.links, Total(sc)) && |b.cells| == Total(sc) * CELL_SIZE && Untouched(b, n)
    ensures LC.LinkAt(b.links, n) == 0 && b.cells[n * CELL_SIZE + 2..n * CELL_SIZE + 5] == [0, 0, 0]
  {
    hide Done, CellAt, Total, LC.Valid, Counted;
    assert Untouched(b, n);
    var bytes := BytesAt(b, n);
    assert bytes[2] == b.cells[n * CELL_SIZE + 2] && bytes[3] == b.cells[n * CELL_SIZE + 3];
    assert bytes[4] == b.cells[n * CELL_SIZE + 4];
  }

  method BuildCell(
      ghost sc: Screen, flat: nat, totalCells: nat, cell: Cell, cells: array<Byte>,
      overflow: map<nat, seq<Byte>>, links: LC.Collector)
    returns (overflow': map<nat, seq<Byte>>)
    requires totalCells == Total(sc) && cells.Length == totalCells * CELL_SIZE && flat < totalCells
    requires Progress(Buffers(cells[..], overflow, links.Table()), sc, flat) && CellAt(sc, flat) == Some(cell)
    modifies cells, links
    ensures Progress(Buffers(cells[..], overflow', links.Table()), sc, flat + 1)
  {
    hide Progress, LC.Valid, Done, CellAt, LC.Recorded, CellBytes, Overflows, Grapheme, Splice, Untouched, Total;
    ghost var before := Buffers(cells[..], overflow, links.Table());
    NextCell(before, sc, flat);
    var linked := false;
    var uri := UriOf(cell);
    if uri.Some? {
      LC.RecordedKeeps(before.links, flat, totalCells, uri.value);
      linked := links.Record(flat, totalCells, uri.value);
    }
    assert linked == (LC.LinkAt(links.Table(), flat) != 0);
    assert cells[..] == before.cells;
    assert cells[flat * CELL_SIZE + 2..flat * CELL_SIZE + 5] ==
        before.cells[flat * CELL_SIZE + 2..flat * CELL_SIZE + 5];
    overflow' := EncodeCell(cell, cells, flat, overflow, linked);
    OneMore(before, Buffers(cells[..], overflow', links.Table()), sc, flat);
  }

  // ---------------------------------------------------------------------------------------
  // The frame
  // ---------------------------------------------------------------------------------------

  /** `set_links`: a table that does not fit the frame is dropped, and so are overlong URIs. */
  function SetLinks(total: nat, cellLinks: seq<nat>, uris: map<nat, LC.Uri>): (seq<nat>, map<nat, LC.Uri>) {
    if uris == map[] || |cellLinks| != total then ([], map[])
    else if exists id :: id in uris && |uris[id]| > LC.MAX_LINK_URI then
      var kept := map id | id in uris && |uris[id]| <= LC.MAX_LINK_URI :: uris[id];
      if kept == map[] then ([], map[])
      else (seq(total, i requires 0 <= i < total => if cellLinks[i] in kept then cellLinks[i] else 0), kept)
    else (cellLinks, uris)
  }

  datatype Cursor = Cursor(row: nat, col: nat)

  /** A screen of more cells than a frame may have leaves the frame without any. */
  function FrameOf(
      b: Buffers, sc: Screen, lineFlags: seq<Byte>, cursor: Cursor, mode: nat, keyboard: nat, title: seq<Byte>): State {
    var row, col := AtMost(cursor.row, |sc.rows|), AtMost(cursor.col, sc.cols);
    if Total(sc) > MAX_CELL_COUNT
    then State(0, 0, row, col, mode, keyboard, title, [], b.overflow, [], 0, [], map[])
    else
      var (cellLinks, uris) := SetLinks(Total(sc), b.links.cellLinks, b.links.uris);
      State(|sc.rows|, sc.cols, row, col, mode, keyboard, title, b.cells, b.overflow, lineFlags, 0, cellLinks, uris)
  }

  function AtMost(n: nat, size: nat): nat { if n < size then n else if size > 0 then size - 1 else 0 }

  /**
    A cursor on the screen stands at its own row and column, a coordinate outside at the last of
    its own axis; mode, keyboard flags and title are those given.
   */
  predicate SettingsArrive(
      s: State, rows: nat, cols: nat, cursor: Cursor, mode: nat, keyboard: nat, title: seq<Byte>) {
    && (cursor.row < rows ==> s.cursorRow == cursor.row)
    && (cursor.row >= rows > 0 ==> s.cursorRow == rows - 1)
    && (rows == 0 ==> s.cursorRow == 0)
    && (cursor.col < cols ==> s.cursorCol == cursor.col)
    && (cursor.col >= cols > 0 ==> s.cursorCol == cols - 1)
    && (cols == 0 ==> s.cursorCol == 0)
    && s.mode == mode && s.keyboardFlags == keyboard && s.title == title
  }

  lemma FrameSettings(
      b: Buffers, sc: Screen, lineFlags: seq<Byte>, cursor: Cursor, mode: nat, keyboard: nat, title: seq<Byte>)
    ensures var s := FrameOf(b, sc, lineFlags, cursor, mode, keyboard, title);
      && SettingsArrive(s, |sc.rows|, sc.cols, cursor, mode, keyboard, title)
      && SettingsArrive(SpelledOut(s), |sc.rows|, sc.cols, cursor, mode, keyboard, title)
  {
    hide SetLinks, Total;
  }

  predicate FlagsShow(lineFlags: seq<Byte>, sc: Screen, n: nat)
    requires n <= |sc.rows|
  {
    && |lineFlags| == |sc.rows|
    && (forall r :: 0 <= r < |sc.rows| ==>
          lineFlags[r] == if r < n && sc.rows[r].Some? && sc.rows[r].value.wrapped then 1 else 0)
  }

  /** A frame of `rows` by `cols` cells for a client `offset` lines above the bottom. */
  method BuildFrame(
      g: S.Grid, offset: nat, rows: nat, cols: nat, cursor: Cursor, mode: nat, keyboard: nat, title: seq<Byte>)
    returns (s: State)
    requires Wide(g, cols)
    ensures IsFrame(s, ScreenOf(g, offset, rows, cols), cursor, mode, keyboard, title)
    ensures SettingsArrive(s, rows, cols, cursor, mode, keyboard, title)
  {
    hide Progress, Wide, ShownRow, Total, ScreenOf, FrameOf, SettingsArrive;
    var sc := ScreenOf(g, offset, rows, cols);
    ScreenRows(g, offset, rows, cols);
    var b := BuildCells(g, offset, rows, cols);
    var lineFlags: seq<Byte> := seq(rows, _ => 0);
    var row := 0;
    while row < rows
      invariant 0 <= row <= rows && FlagsShow(lineFlags, sc, row)
    {
      var line := LineForFlags(g, offset, row);
      if line.Some? && line.value.wrapped {
        lineFlags := lineFlags[row := 1];
      }
      row := row + 1;
    }
    s := FrameOf(b, sc, lineFlags, cursor, mode, keyboard, title);
    FrameSettings(b, sc, lineFlags, cursor, mode, keyboard, title);
    assert IsBuiltFrom(s, b, sc, lineFlags, cursor, mode, keyboard, title);
  }

  ghost predicate IsBuiltFrom(
      s: State, b: Buffers, sc: Screen, lineFlags: seq<Byte>, cursor: Cursor, mode: nat, keyboard: nat,
      title: seq<Byte>) {
    && Progress(b, sc, Total(sc)) && FlagsShow(lineFlags, sc, |sc.rows|)
    && s == FrameOf(b, sc, lineFlags, cursor, mode, keyboard, title)
  }

  /** `s` is a frame of the screen. */
  ghost predicate IsFrame(s: State, sc: Screen, cursor: Cursor, mode: nat, keyboard: nat, title: seq<Byte>) {
    exists b, lineFlags :: IsBuiltFrom(s, b, sc, lineFlags, cursor, mode, keyboard, title)
  }

  // ---------------------------------------------------------------------------------------
  // Reading the frame
  // ---------------------------------------------------------------------------------------

  function VisibleAt(sc: Screen, i: nat): seq<Byte>
    requires ScreenOk(sc) && i < Total(sc)
  {
    match CellAt(sc, i) case None => [0x20] case Some(cell) => Visible(cell)
  }

  function Flat(sc: Screen, row: nat, col: nat): (i: nat)
    requires row < |sc.rows| && col < sc.cols
    ensures col <= i < Total(sc)
  {
    CellOfRow(sc, row, col);
    RowStart(sc, row) + col
  }

  /** The cell whose link a pointer at (row, col) is on: the left half of a wide glyph speaks for both. */
  function AnchorAt(sc: Screen, row: nat, col: nat): (i: nat)
    requires ScreenOk(sc) && row < |sc.rows| && col < sc.cols
    ensures i < Total(sc)
  {
    var i := Flat(sc, row, col);
    if col > 0 && CellAt(sc, i).Some? && CellAt(sc, i).value.spacer then i - 1 else i
  }

  /** A link shown is the grid's; and none is lost while the screen has no more links than ids. */
  predicate LinkAgrees(sc: Screen, i: nat, link: Option<LC.Uri>)
    requires ScreenOk(sc) && i < Total(sc)
  {
    && (link.Some? ==> UriAt(sc, i) == link && LC.Acceptable(link.value))
    && (|ScreenUris(sc)| <= LC.MAX_LINK_ID && UriAt(sc, i).Some? && LC.Acceptable(UriAt(sc, i).value) ==>
          link == UriAt(sc, i))
  }

  function StyleAt(sc: Screen, i: nat): CellStyle
    requires ScreenOk(sc) && i < Total(sc)
  {
    match CellAt(sc, i)
    case None => CellStyle(Default, Default, false, false, false, false, false)
    case Some(cell) => ShownStyle(cell.style)
  }

  function CellSlice(s: State, row: nat, col: nat): (b: seq<Byte>)
    requires Sized(s) && row < s.rows && col < s.cols
    ensures |b| == CELL_SIZE
  {
    var i := CellIndex(s, row, col);
    s.cells[i * CELL_SIZE..(i + 1) * CELL_SIZE]
  }

  /** The state reads as the grid. */
  predicate ReadsAs(s: State, sc: Screen, row: nat, col: nat)
    requires ScreenOk(sc) && Sized(s) && row < |sc.rows| && col < sc.cols
  {
    && s.rows == |sc.rows| && s.cols == sc.cols
    && ReadStyle(CellSlice(s, row, col)) == StyleAt(sc, Flat(sc, row, col))
    && CellContent(s, row, col) == Text(VisibleAt(sc, Flat(sc, row, col)))
    && LinkAgrees(sc, AnchorAt(sc, row, col), CellLink(s, row, col))
    && (IsWrapped(s, row) <==> sc.rows[row].Some? && sc.rows[row].value.wrapped)
  }

  /** The frame's buffers inside a state, whose link list may have been spelled out in full. */
  ghost predicate Carries(s: State, b: Buffers, sc: Screen) {
    && Progress(b, sc, Total(sc)) && s.rows == |sc.rows| && s.cols == sc.cols
    && s.cells == b.cells && s.overflow == b.overflow
    && (s.cellLinks == [] || |s.cellLinks| == Total(sc))
    && (forall i :: 0 <= i < Total(sc) ==> (if i < |s.cellLinks| then s.cellLinks[i] else 0) == LC.LinkAt(b.links, i))
    && (forall i :: 0 <= i < |s.cellLinks| && s.cellLinks[i] != 0 ==> s.cellLinks[i] in s.linkUris)
    && (forall id :: id in s.linkUris ==> id in b.links.uris && s.linkUris[id] == b.links.uris[id])
    && FlagsShow(s.lineFlags, sc, |sc.rows|)
  }

  lemma BlankReads(s: State, row: nat, col: nat)
    requires Sized(s) && row < s.rows && col < s.cols
    requires var i := CellIndex(s, row, col); s.cells[i * CELL_SIZE..(i + 1) * CELL_SIZE] == BLANK
    ensures CellContent(s, row, col) == Text([0x20]) && !IsSpacer(CellFlags(s, CellIndex(s, row, col)))
  {
    var i := CellIndex(s, row, col);
    assert s.cells[i * CELL_SIZE..(i + 1) * CELL_SIZE][1] == CellFlags(s, i);
  }

  lemma CarriesSize(s: State, b: Buffers, sc: Screen)
    requires Carries(s, b, sc)
    ensures ScreenOk(sc) && Sized(s) && s.rows == |sc.rows| && s.cols == sc.cols
  {
    hide Done, Untouched, Counted, LC.Valid;
  }

  /** A written cell is one the renderer can read. */
  lemma CellHeld(s: State, b: Buffers, sc: Screen, i: nat)
    requires Carries(s, b, sc) && Sized(s) && i < s.rows * s.cols && i < Total(sc)
    ensures var cell := CellAt(sc, i);
      && (cell.None? ==> s.cells[i * CELL_SIZE..(i + 1) * CELL_SIZE] == BLANK)
      && (cell.Some? ==> Holds(s, i, cell.value, LC.LinkAt(b.links, i) != 0))
  {
    assert Done(b, sc, i);
    hide Progress, CellAt, CellBytes, Grapheme, LinkDone, Overflows;
  }

  lemma TextReads(s: State, b: Buffers, sc: Screen, row: nat, col: nat)
    requires Carries(s, b, sc) && Sized(s) && row < |sc.rows| == s.rows && col < sc.cols == s.cols
    ensures var cell := CellAt(sc, Flat(sc, row, col));
      && CellContent(s, row, col) == Text(VisibleAt(sc, Flat(sc, row, col)))
      && (IsSpacer(CellFlags(s, CellIndex(s, row, col))) <==> cell.Some? && cell.value.spacer)
  {
    hide Carries, Flat, CellIndex, Total, Progress, CellAt, CellBytes, Grapheme, Visible;
    hide CellContent, CellFlags, IsSpacer, Holds, Sized;
    CarriesSize(s, b, sc);
    var i := CellIndex(s, row, col);
    SameFlat(s, sc, row, col);
    CellHeld(s, b, sc, i);
    match CellAt(sc, i)
    case None => BlankReads(s, row, col);
    case Some(cell) =>
      var linked := LC.LinkAt(b.links, i) != 0;
      CellRoundTrip(s, row, col, cell, linked);
      HeldFlags(s, i, cell, linked);
      FlagsReadBack(cell, linked, LenField(cell));
  }

  lemma StyleReads(s: State, b: Buffers, sc: Screen, row: nat, col: nat)
    requires Carries(s, b, sc) && Sized(s) && row < |sc.rows| == s.rows && col < sc.cols == s.cols
    ensures ReadStyle(CellSlice(s, row, col)) == StyleAt(sc, Flat(sc, row, col))
  {
    hide Carries, Flat, CellIndex, Total, Progress, CellAt, CellBytes, Grapheme, ReadStyle, ShownStyle, Overflows;
    CarriesSize(s, b, sc);
    var i := CellIndex(s, row, col);
    SameFlat(s, sc, row, col);
    CellHeld(s, b, sc, i);
    match CellAt(sc, i)
    case None => BlankStyle();
    case Some(cell) => StyleReadsBack(cell, LC.LinkAt(b.links, i) != 0, [0, 0, 0]);
  }

  lemma BlankStyle()
    ensures ReadStyle(BLANK) == CellStyle(Default, Default, false, false, false, false, false)
  {
  }

  lemma NothingRefused(links: LC.Links, sc: Screen, uri: LC.Uri)
    requires ScreenOk(sc) && Counted(links, sc) && uri in ScreenUris(sc) && |ScreenUris(sc)| <= LC.MAX_LINK_ID
    requires LC.Acceptable(uri)
    ensures !Refused(links, uri)
  {
    hide ScreenUris;
    if uri !in links.byUri {
      assert |links.byUri| == |links.byUri.Keys|;
      LC.SubsetCount(links.byUri.Keys + {uri}, ScreenUris(sc));
    }
  }

  /** The link stored for flat index `i`. */
  function LinkOf(s: State, i: nat): Option<LC.Uri> {
    var id := if i < |s.cellLinks| then s.cellLinks[i] else 0;
    if id != 0 && id in s.linkUris then Some(s.linkUris[id]) else None
  }

  lemma CellLinkIsAnchors(s: State, row: nat, col: nat)
    requires Sized(s) && row < s.rows && col < s.cols
    ensures var i := CellIndex(s, row, col);
      CellLink(s, row, col) == LinkOf(s, if IsSpacer(CellFlags(s, i)) && col > 0 then i - 1 else i)
  {
    hide CellFlags, IsSpacer;
  }

  lemma LinkAtReads(s: State, b: Buffers, sc: Screen, i: nat)
    requires Carries(s, b, sc) && i < Total(sc)
    ensures LinkAgrees(sc, i, LinkOf(s, i))
  {
    assert Done(b, sc, i) && Counted(b.links, sc) && LC.Valid(b.links, Total(sc));
    if UriAt(sc, i).Some? && LC.Acceptable(UriAt(sc, i).value) {
      assert UriAt(sc, i).value in ScreenUris(sc);
      if |ScreenUris(sc)| <= LC.MAX_LINK_ID {
        NothingRefused(b.links, sc, UriAt(sc, i).value);
      }
    }
    hide Progress, CellBytes, Grapheme, ScreenUris, Counted, BytesAt, Overflows;
  }

  lemma SameFlat(s: State, sc: Screen, row: nat, col: nat)
    requires row < |sc.rows| == s.rows && col < sc.cols == s.cols
    ensures CellIndex(s, row, col) == Flat(sc, row, col)
  {
  }

  lemma LinkReads(s: State, b: Buffers, sc: Screen, row: nat, col: nat)
    requires Carries(s, b, sc) && Sized(s) && ScreenOk(sc) && row < |sc.rows| == s.rows && col < sc.cols == s.cols
    ensures LinkAgrees(sc, AnchorAt(sc, row, col), CellLink(s, row, col))
  {
    hide Carries, Flat, CellIndex, Total, CellAt, LinkAgrees, CellContent, CellFlags, CellLink;
    hide LinkOf, IsSpacer, VisibleAt, Sized;
    SameFlat(s, sc, row, col);
    TextReads(s, b, sc, row, col);
    CellLinkIsAnchors(s, row, col);
    LinkAtReads(s, b, sc, AnchorAt(sc, row, col));
  }

  /** A state that carries the frame reads as the grid at every cell. */
  lemma FrameReads(s: State, b: Buffers, sc: Screen, row: nat, col: nat)
    requires Carries(s, b, sc) && row < |sc.rows| && col < sc.cols
    ensures ScreenOk(sc) && Sized(s) && ReadsAs(s, sc, row, col)
  {
    CarriesSize(s, b, sc);
    hide Progress, CellContent, LinkAgrees, AnchorAt, VisibleAt, StyleAt, CellSlice, ReadStyle;
    hide CellLink, Flat, Total, Sized;
    TextReads(s, b, sc, row, col);
    StyleReads(s, b, sc, row, col);
    LinkReads(s, b, sc, row, col);
  }

  // ---------------------------------------------------------------------------------------
  // From the grid to the browser
  // ---------------------------------------------------------------------------------------

  /** The decoder always spells the links out, one per cell. */
  function SpelledOut(s: State): State {
    if s.cellLinks == [] then s.(cellLinks := Zeros(s.rows * s.cols)) else s
  }

  lemma FrameCarries(
      s: State, b: Buffers, sc: Screen, lineFlags: seq<Byte>, cursor: Cursor, mode: nat, keyboard: nat,
      title: seq<Byte>)
    requires IsBuiltFrom(s, b, sc, lineFlags, cursor, mode, keyboard, title) && Total(sc) <= MAX_CELL_COUNT
    ensures Carries(s, b, sc) && Carries(SpelledOut(s), b, sc)
  {
    hide Done, Untouched, Counted, SetLinks, FlagsShow;
    LinksCarry(b.links, Total(sc));
  }

  lemma LinksCarry(t: LC.Links, total: nat)
    requires LC.Valid(t, total)
    ensures var (cellLinks, uris) := SetLinks(total, t.cellLinks, t.uris);
      && (cellLinks == [] || |cellLinks| == total)
      && (forall i :: 0 <= i < total ==> (if i < |cellLinks| then cellLinks[i] else 0) == LC.LinkAt(t, i))
      && (forall i :: 0 <= i < |cellLinks| && cellLinks[i] != 0 ==> cellLinks[i] in uris)
      && (forall id :: id in uris ==> id in t.uris && uris[id] == t.uris[id])
  {
    forall id | id in t.uris ensures |t.uris[id]| <= LC.MAX_LINK_URI {
      assert LC.Acceptable(t.uris[id]);
    }
  }

  /** Titles and URIs are strings. */
  predicate TextsOk(sc: Screen, title: seq<Byte>)
    requires ScreenOk(sc)
  {
    IsUtf8(title) && forall i :: 0 <= i < Total(sc) && UriAt(sc, i).Some? ==> IsUtf8(UriAt(sc, i).value)
  }

  lemma TableTexts(links: LC.Links, sc: Screen, title: seq<Byte>, id: nat)
    requires ScreenOk(sc) && TextsOk(sc, title) && Counted(links, sc) && LC.Valid(links, Total(sc)) && id in links.uris
    ensures IsUtf8(links.uris[id]) && id != 0
  {
    hide IsUtf8, UriAt;
    assert links.uris[id] in ScreenUris(sc);
  }

  lemma OverflowTexts(b: Buffers, sc: Screen, k: nat)
    requires Progress(b, sc, Total(sc)) && k in b.overflow
    ensures k < Total(sc) && IsUtf8(b.overflow[k])
  {
    hide LC.Valid, Counted, Grapheme, CellBytes, BytesAt, IsUtf8, CellAt, LinkDone, Overflows;
    assert Done(b, sc, k);
    if CellAt(sc, k).Some? {
      GraphemeIsText(CellAt(sc, k).value);
    }
  }

  lemma FrameIsConsistent(
      s: State, b: Buffers, sc: Screen, lineFlags: seq<Byte>, cursor: Cursor, mode: nat, keyboard: nat,
      title: seq<Byte>)
    requires IsBuiltFrom(s, b, sc, lineFlags, cursor, mode, keyboard, title)
    requires ScreenOk(sc) && TextsOk(sc, title) && keyboard < 32 && Total(sc) <= MAX_CELL_COUNT
    ensures Consistent(SpelledOut(s))
  {
    FrameCarries(s, b, sc, lineFlags, cursor, mode, keyboard, title);
    var s' := SpelledOut(s);
    CarriesSize(s', b, sc);
    assert IsUtf8(title);
    assert Counted(b.links, sc) && LC.Valid(b.links, Total(sc));
    hide IsUtf8, Done, Untouched, Counted, LC.Valid, SetLinks, TextsOk;
    forall k | k in s'.overflow ensures k < Total(sc) && IsUtf8(s'.overflow[k]) {
      OverflowTexts(b, sc, k);
    }
    forall id | id in s'.linkUris ensures IsUtf8(s'.linkUris[id]) && id != 0 {
      TableTexts(b.links, sc, title, id);
    }
  }

  /**
    Every frame within the format's limits has a payload, and the state decoded from it shows the
    grid: each cell its text and link, each row its wrap flag, the cursor where it is, and the
    mode, keyboard flags and title.
   */
  lemma GridReachesBrowser(
      s: State, sc: Screen, cursor: Cursor, mode: nat, keyboard: nat, title: seq<Byte>)
      returns (w: Wire)
    requires IsFrame(s, sc, cursor, mode, keyboard, title) && ScreenOk(sc) && TextsOk(sc, title) && keyboard < 32
    requires Representable(SpelledOut(s))
    ensures WireFits(w) && DecodeSnapshot(Encode(w)) == Some(SpelledOut(s)) && Sized(SpelledOut(s))
    ensures forall row, col :: 0 <= row < |sc.rows| && 0 <= col < sc.cols ==> ReadsAs(SpelledOut(s), sc, row, col)
    ensures SettingsArrive(SpelledOut(s), |sc.rows|, sc.cols, cursor, mode, keyboard, title)
  {
    hide Representable, Consistent, WireFits, Encode, DecodeSnapshot, SpelledOut, IsBuiltFrom;
    hide ReadsAs, TextsOk, Carries, Sized, SettingsArrive;
    var b, lineFlags :| IsBuiltFrom(s, b, sc, lineFlags, cursor, mode, keyboard, title);
    BuiltSettings(s, b, sc, lineFlags, cursor, mode, keyboard, title);
    RepresentableFits(s, b, sc, lineFlags, cursor, mode, keyboard, title);
    FrameIsConsistent(s, b, sc, lineFlags, cursor, mode, keyboard, title);
    FrameCarries(s, b, sc, lineFlags, cursor, mode, keyboard, title);
    CarriesSize(SpelledOut(s), b, sc);
    w := EveryStateHasASnapshot(SpelledOut(s));
    forall row, col | 0 <= row < |sc.rows| && 0 <= col < sc.cols ensures ReadsAs(SpelledOut(s), sc, row, col) {
      FrameReads(SpelledOut(s), b, sc, row, col);
    }
  }

  lemma BuiltSettings(
      s: State, b: Buffers, sc: Screen, lineFlags: seq<Byte>, cursor: Cursor, mode: nat, keyboard: nat,
      title: seq<Byte>)
    requires IsBuiltFrom(s, b, sc, lineFlags, cursor, mode, keyboard, title)
    ensures SettingsArrive(s, |sc.rows|, sc.cols, cursor, mode, keyboard, title)
    ensures SettingsArrive(SpelledOut(s), |sc.rows|, sc.cols, cursor, mode, keyboard, title)
  {
    hide FrameOf, SpelledOut, SettingsArrive, Progress, FlagsShow;
    FrameSettings(b, sc, lineFlags, cursor, mode, keyboard, title);
  }

  lemma RepresentableFits(
      s: State, b: Buffers, sc: Screen, lineFlags: seq<Byte>, cursor: Cursor, mode: nat, keyboard: nat,
      title: seq<Byte>)
    requires IsBuiltFrom(s, b, sc, lineFlags, cursor, mode, keyboard, title) && Representable(SpelledOut(s))
    ensures Total(sc) <= MAX_CELL_COUNT
  {
    hide Progress, FlagsShow, RunsFrom;
  }

  /** The driver's own frame reads the same, and one over the limit shows nothing. */
  lemma FrameShowsGrid(
      s: State, sc: Screen, cursor: Cursor, mode: nat, keyboard: nat, title: seq<Byte>, row: nat, col: nat)
    requires IsFrame(s, sc, cursor, mode, keyboard, title)
    ensures ScreenOk(sc) && Sized(s)
    ensures Total(sc) <= MAX_CELL_COUNT ==> s.rows == |sc.rows| && s.cols == sc.cols
    ensures Total(sc) <= MAX_CELL_COUNT && row < |sc.rows| && col < sc.cols ==> ReadsAs(s, sc, row, col)
    ensures Total(sc) > MAX_CELL_COUNT ==> CellContent(s, row, col) == Text([]) && CellLink(s, row, col) == None
    ensures SettingsArrive(s, |sc.rows|, sc.cols, cursor, mode, keyboard, title)
  {
    hide SettingsArrive;
    var b, lineFlags :| IsBuiltFrom(s, b, sc, lineFlags, cursor, mode, keyboard, title);
    BuiltSettings(s, b, sc, lineFlags, cursor, mode, keyboard, title);
    if Total(sc) <= MAX_CELL_COUNT {
      hide IsBuiltFrom, ReadsAs, Sized, ScreenOk, Carries;
      FrameCarries(s, b, sc, lineFlags, cursor, mode, keyboard, title);
      CarriesSize(s, b, sc);
      if row < |sc.rows| && col < sc.cols {
        FrameReads(s, b, sc, row, col);
      }
    } else {
      hide Done, Untouched, Counted, LC.Valid;
    }
  }

  // ---------------------------------------------------------------------------------------
  // Parked clients
  // ---------------------------------------------------------------------------------------

  lemma ShownLineIsRetained(g: S.Grid, offset: nat, row: nat)
    requires S.Valid(g) && S.FrameLine(g, offset, row).Some?
    ensures var line := S.FrameLine(g, offset, row).value;
      S.Retained(g, line.index) && S.RowOf(g, line.index) == line.row
  {
    assert S.Lines(g)[0].index == S.Top(g) - |g.history|;
  }

  /**
    After a chunk shorter than the scrollback, a client that adds the driver's count to its
    offset gets a frame whose rows are the ones it had, wherever the line is still retained and
    the chunk did not write into it.
   */
  lemma ParkedFrameFollows(d: S.Driver, chunk: seq<S.Op>, crossed: bool, offset: nat, row: nat)
    requires S.Valid(d.term.primary) && !d.term.onAlt && !S.AltAfter(false, chunk) && |d.term.primary.history| > 0
    requires S.PrimaryScrolls(false, chunk) < d.term.primary.limit
    requires var before := S.FrameLine(d.term.primary, offset, row);
      && before.Some? && S.Retained(S.ProcessChunk(d, chunk, crossed).term.primary, before.value.index)
      && !S.ChunkRewrites(S.ArmProbe(d.term), chunk, before.value.index)
    ensures var d' := S.ProcessChunk(d, chunk, crossed);
      && d'.scrolled >= d.scrolled
      && ShownRow(d'.term.primary, offset + (d'.scrolled - d.scrolled), row) == ShownRow(d.term.primary, offset, row)
  {
    S.ParkedViewFollows(d, chunk, crossed, offset, row);
    S.ProcessKeepsStep(d, chunk, crossed);
    hide S.ProcessChunk, S.ArmProbe, S.ChunkRewrites, S.PrimaryScrolls, S.FrameLine, S.Retained, S.Valid;
    var d' := S.ProcessChunk(d, chunk, crossed);
    var before := S.FrameLine(d.term.primary, offset, row).value;
    ShownLineIsRetained(d.term.primary, offset, row);
    ShownLineIsRetained(d'.term.primary, offset + (d'.scrolled - d.scrolled), row);
    S.ChunkKeepsRow(d, chunk, crossed, before.index);
  }
}
