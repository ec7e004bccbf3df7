/**
  Where every field of a renderer snapshot stands, byte by byte: the layout written out, that
  printing produces it, and what an accepted payload holds at which offset.
*/
module SnapshotLayout {
  import opened Common
  import opened Bytes
  import opened RendererState
  import opened SnapshotFormat
  import opened Snapshot
  import opened SnapshotState

  // ---------------------------------------------------------------------------------------
  // The layout
  // ---------------------------------------------------------------------------------------

  /** Keyed strings: the key, the length in two bytes, the text. */
  function TextBytes(keyWidth: nat, es: seq<Entry>): seq<Byte> {
    if es == [] then []
    else Le(es[0].key, keyWidth) + Le(|es[0].text|, 2) + es[0].text + TextBytes(keyWidth, es[1..])
  }

  /** Link runs: first cell, length, id. */
  function RunBytes(rs: seq<Run>): seq<Byte> {
    if rs == [] then [] else Le(rs[0].start, 4) + Le(rs[0].len, 2) + Le(rs[0].id, 2) + RunBytes(rs[1..])
  }

  function HeadBytes(h: Head): seq<Byte> {
    Le(h.rows, 2) + Le(h.cols, 2) + Le(h.cursorRow, 2) + Le(h.cursorCol, 2) + Le(h.mode, 2) + Le(h.field, 2)
  }

  /** Two operations: 2 fills the screen with blank cells, 3 patches the cells of a bitmap. */
  function OperationBytes(rows: nat, cols: nat): seq<Byte> {
    [2, 0] + ([2] + ([0, 0] + ([0, 0] + (Le(rows, 2) + (Le(cols, 2)
    + ([0, 0, 0, 0, 0, 0, 0, 0, 0, 0, 0, 0] + ([3] + Bitmap(rows * cols))))))))
  }

  function StringBytes(h: Head, t: Tables): seq<Byte> {
    if h.field / 0x2000 % 2 == 1 then Le(|t.strings|, 2) + TextBytes(4, t.strings) else []
  }

  function TableBytes(h: Head, t: Tables): seq<Byte> {
    StringBytes(h, t) + t.lineFlags + Le(t.scrollback, 4)
    + (Le(|t.uris|, 2) + TextBytes(2, t.uris)) + (Le(|t.runs|, 2) + RunBytes(t.runs))
  }

  function Layout(w: Wire): seq<Byte> {
    (HeadBytes(w.front.head) + w.front.title + OperationBytes(w.front.head.rows, w.front.head.cols) + w.front.planes)
    + TableBytes(w.front.head, w.tables) + (if w.keyboard.Some? then [w.keyboard.value] else [])
  }

  lemma {:induction false} EntriesAreTexts(t: Table, es: seq<Entry>)
    requires forall i :: 0 <= i < |es| ==> EntryFits(t, es[i])
    ensures PutEntries(t, es) == TextBytes(if t.Overflow? then 4 else 2, es)
    decreases |es|
  {
    hide IsUtf8, U16, U32, Le;
    if es != [] {
      assert EntryFits(t, es[0]);
      LittleEndian(es[0].key);
      LittleEndian(|es[0].text|);
      EntriesAreTexts(t, es[1..]);
    }
  }

  lemma {:induction false} RunsAreBytes(rs: seq<Run>)
    requires forall i :: 0 <= i < |rs| ==> RunFits(rs[i])
    ensures PutRuns(rs) == RunBytes(rs)
    decreases |rs|
  {
    hide U16, U32, Le;
    if rs != [] {
      assert RunFits(rs[0]);
      LittleEndian(rs[0].start);
      LittleEndian(rs[0].len);
      LittleEndian(rs[0].id);
      RunsAreBytes(rs[1..]);
    }
  }

  lemma HeadIsBytes(h: Head)
    requires HeadFits(h)
    ensures PutHead(h) == HeadBytes(h)
  {
    hide U16, Le;
    LittleEndian(h.rows);
    LittleEndian(h.cols);
    LittleEndian(h.cursorRow);
    LittleEndian(h.cursorCol);
    LittleEndian(h.mode);
    LittleEndian(h.field);
  }

  lemma OperationsAreBytes(rows: nat, cols: nat)
    requires rows < 0x1_0000 && cols < 0x1_0000
    ensures Operations(rows, cols) == OperationBytes(rows, cols)
  {
    hide U16, Le, Bitmap;
    LittleEndian(rows);
    LittleEndian(cols);
    SmallNumbers();
    assert BlankCell() == [0, 0, 0, 0, 0, 0, 0, 0, 0, 0, 0, 0];
  }

  lemma SmallNumbers()
    ensures U16(2) == [2, 0] && U16(0) == [0, 0]
  {
  }

  lemma TablesAreBytes(h: Head, t: Tables)
    requires TablesFit(h, t)
    ensures PutTables(h, t) == TableBytes(h, t)
  {
    hide U16, U32, Le, EntryFits, EntryMap, RunFits, RunAllowed, KeyAllowed;
    LittleEndian(|t.strings|);
    LittleEndian(|t.uris|);
    LittleEndian(|t.runs|);
    LittleEndian(t.scrollback);
    if HasStrings(h.field) {
      EntriesAreTexts(Overflow(Total(h)), t.strings);
    }
    EntriesAreTexts(Uris, t.uris);
    RunsAreBytes(t.runs);
  }

  /** Printing a payload lays out exactly these bytes. */
  lemma PayloadLayout(w: Wire)
    requires WireFits(w)
    ensures Encode(w) == Layout(w)
  {
    hide PutHead, HeadBytes, Operations, OperationBytes, PutTables, TableBytes, TablesFit, IsUtf8;
    HeadIsBytes(w.front.head);
    OperationsAreBytes(w.front.head.rows, w.front.head.cols);
    TablesAreBytes(w.front.head, w.tables);
  }

  /** The bitmap has one bit for every cell, lowest first, and no other. */
  lemma BitmapBits(total: nat, i: nat, j: nat)
    requires i < |Bitmap(total)| && j < 8
    ensures |Bitmap(total)| == (total + 7) / 8
    ensures var power := [1, 2, 4, 8, 16, 32, 64, 128][j];
      Bitmap(total)[i] as int / power % 2 == 1 <==> 8 * i + j < total
  {
    var n := total % 8;
    assert Bitmap(total)[i] == BitmapByte(total, i);
    if i + 1 == BitmapLen(total) && n != 0 {
      assert 8 * i + n == total;
      LowBit(n, j);
    } else {
      assert 8 * i + 8 <= total;
      AllBits(j);
    }
  }

  lemma LowBit(n: nat, j: nat)
    requires n < 8 && j < 8
    ensures LowBits(n) as int / [1, 2, 4, 8, 16, 32, 64, 128][j] % 2 == 1 <==> j < n
  {
  }

  lemma AllBits(j: nat)
    requires j < 8
    ensures 255 / [1, 2, 4, 8, 16, 32, 64, 128][j] % 2 == 1
  {
  }

  // ---------------------------------------------------------------------------------------
  // What an accepted payload holds
  // ---------------------------------------------------------------------------------------

  /** The number in two bytes. */
  function At(b: seq<Byte>, i: nat): nat
    requires i + 1 < |b|
  {
    b[i] as int + 256 * b[i + 1] as int
  }

  lemma HeadAt(b: seq<Byte>, h: Head, rest: seq<Byte>)
    requires GetHead(b) == Got(h, rest)
    ensures |b| >= 12 && h == Head(At(b, 0), At(b, 2), At(b, 4), At(b, 6), At(b, 8), At(b, 10))
  {
  }

  lemma FieldAt(lo: Byte, hi: Byte)
    ensures var field: nat := lo as int + 256 * hi as int;
      && (FlagsOk(field) <==> hi / 128 == 1 && hi / 64 % 2 == 1 && hi / 16 % 2 == 1)
      && (HasStrings(field) <==> hi / 32 % 2 == 1)
      && TitleLen(field) == lo as int + 256 * (hi as int % 16)
  {
    var field: nat := lo as int + 256 * hi as int;
    assert field / 0x1000 == hi / 16 && field % 0x1000 == lo as int + 256 * (hi as int % 16);
  }

  /**
    An accepted payload starts with rows, columns, cursor row, cursor column and modes, two bytes
    each; the byte at 11 has bits 7, 6 and 4 set and gives with the byte at 10 the title's length;
    the title follows.
   */
  predicate HeadStands(b: seq<Byte>, s: State) {
    && |b| >= 12 && s.rows == At(b, 0) && s.cols == At(b, 2) && 1 <= s.rows * s.cols <= 500_000
    && s.cursorRow == Min(At(b, 4), s.rows - 1) && s.cursorCol == Min(At(b, 6), s.cols - 1) && s.mode == At(b, 8)
    && b[11] / 128 == 1 && b[11] / 64 % 2 == 1 && b[11] / 16 % 2 == 1
    && |s.title| == b[10] as int + 256 * (b[11] as int % 16) && s.title <= b[12..]
  }

  lemma AcceptedHead(b: seq<Byte>)
    requires DecodeSnapshot(b).Some?
    ensures HeadStands(b, DecodeSnapshot(b).value)
  {
    hide IsUtf8, Encode, EntryMap, Fill, Transposed, Operations, GetTables, FlagsOk, HasStrings, TitleLen, GetHead;
    var w := ParseWire(b).value;
    ParseIsEncode(b, w);
    var h, b1 := w.front.head, GetHead(b).rest;
    GetHeadIsPut(b, h, b1);
    HeadAt(b, h, b1);
    FieldAt(b[10], b[11]);
    HeadRest(b);
  }

  lemma HeadRest(b: seq<Byte>)
    requires GetHead(b).Got?
    ensures |b| >= 12 && GetHead(b).rest == b[12..]
  {
  }

  lemma OperationsLength(rows: nat, cols: nat)
    requires rows < 0x1_0000 && cols < 0x1_0000
    ensures |Operations(rows, cols)| == 24 + (rows * cols + 7) / 8
  {
    assert |U16(rows)| == 2 && |U16(cols)| == 2;
    hide U16;
    SmallNumbers();
    hide Bitmap;
    assert |BlankCell()| == 12;
    assert |Bitmap(rows * cols)| == BitmapLen(rows * cols);
  }

  predicate CellStands(b: seq<Byte>, s: State, c: nat, p: nat) {
    var total := s.rows * s.cols;
    var i := 36 + |s.title| + (total + 7) / 8 + (p * total + c);
    12 * c + p < |s.cells| && i < |b| && s.cells[12 * c + p] == b[i]
  }

  /** The cells follow in twelve planes: byte `p` of cell `c` is byte `c` of plane `p`. */
  lemma AcceptedCells(b: seq<Byte>, s: State, c: nat, p: nat)
    requires DecodeSnapshot(b) == Some(s) && p < 12 && c < s.rows * s.cols
    ensures CellStands(b, s, c, p)
  {
    hide DecodeSnapshot, WireFits, Encode, Operations, Transposed;
    var w := Source(b, s);
    FrontSize(w.front);
    OperationsLength(w.front.head.rows, w.front.head.cols);
    CellOfPlane(w.front.planes, Total(w.front.head), c, p);
    PlaneInPayload(w, b, p * Total(w.front.head) + c);
  }

  /** The payload's parts and the state's. */
  lemma Source(b: seq<Byte>, s: State) returns (w: Wire)
    requires DecodeSnapshot(b) == Some(s)
    ensures WireFits(w) && b == Encode(w) && FrontFits(w.front)
    ensures s.rows == w.front.head.rows && s.cols == w.front.head.cols && s.title == w.front.title
    ensures |w.front.planes| == Total(w.front.head) * CELL_SIZE
    ensures s.cells == Transposed(w.front.planes, Total(w.front.head))
  {
    hide IsUtf8, Encode, TablesFit, EntryMap, Fill, Transposed, ParseWire;
    w := ParseWire(b).value;
    ParseIsEncode(b, w);
  }

  lemma FrontSize(f: Front)
    requires FrontFits(f)
    ensures HeadFits(f.head) && f.head.rows < 0x1_0000 && f.head.cols < 0x1_0000 && |f.planes| == Total(f.head) * 12
  {
    hide IsUtf8;
  }

  lemma CellOfPlane(planes: seq<Byte>, total: nat, c: nat, p: nat)
    requires |planes| == total * CELL_SIZE && p < 12 && c < total
    ensures 12 * c + p < total * CELL_SIZE && p * total + c < |planes|
    ensures Transposed(planes, total)[12 * c + p] == planes[p * total + c]
  {
    PlaneIndex(total, p, c);
    assert (12 * c + p) % 12 == p && (12 * c + p) / 12 == c;
  }

  lemma PlaneInPayload(w: Wire, b: seq<Byte>, k: nat)
    requires WireFits(w) && b == Encode(w) && k < |w.front.planes|
    ensures HeadFits(w.front.head)
    ensures var i := 12 + |w.front.title| + |Operations(w.front.head.rows, w.front.head.cols)| + k;
      i < |b| && b[i] == w.front.planes[k]
  {
    hide IsUtf8, TablesFit, PutTables, Operations, PutHead;
    FrontSize(w.front);
    assert |PutHead(w.front.head)| == 12;
    var f := PutFront(w.front);
    assert b == f + (PutTables(w.front.head, w.tables) + (if w.keyboard.Some? then [w.keyboard.value] else []));
  }

  /** Every consistent screen within these limits has a payload, and it decodes to the screen. */
  lemma EveryScreenHasAPayload(s: State) returns (b: seq<Byte>)
    requires Consistent(s) && 1 <= s.rows <= 65535 && 1 <= s.cols <= 65535 && s.rows * s.cols <= 500_000
    requires |s.cellLinks| == s.rows * s.cols && |RunsFrom(s.cellLinks, 0)| <= 65535
    requires s.mode <= 65535 && |s.title| <= 4095 && s.scrollbackLines <= 4_294_967_295
    requires |s.overflow| <= 65535 && forall k :: k in s.overflow ==> |s.overflow[k]| <= 65535
    requires |s.linkUris| <= 65535 && forall k :: k in s.linkUris ==> k <= 65535 && |s.linkUris[k]| <= 65535
    ensures DecodeSnapshot(b) == Some(s)
  {
    hide Consistent, DecodeSnapshot, Encode, RunsFrom, WireFits;
    var w := EveryStateHasASnapshot(s);
    b := Encode(w);
  }
}
