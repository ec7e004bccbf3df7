/** What a snapshot payload stands for, and that every representable screen has one. */
module SnapshotState {
  import opened Common
  import opened Bytes
  import opened RendererState
  import opened SnapshotFormat
  import opened Snapshot

  function Zeros(n: nat): seq<nat> { seq(n, _ => 0) }

  /** Byte `p` of cell `c` is byte `c` of plane `p`. */
  function CellByte(planes: seq<Byte>, total: nat, i: nat): Byte
    requires |planes| == total * CELL_SIZE && i < total * CELL_SIZE
  {
    PlaneIndex(total, i % CELL_SIZE, i / CELL_SIZE);
    planes[i % CELL_SIZE * total + i / CELL_SIZE]
  }

  lemma PlaneIndex(total: nat, p: nat, c: nat)
    requires p < CELL_SIZE && c < total
    ensures p * total + c < total * CELL_SIZE
  {
    assert (p + 1) * total <= CELL_SIZE * total by {
      assert CELL_SIZE * total == (p + 1) * total + (CELL_SIZE - 1 - p) * total;
    }
  }

  function Transposed(planes: seq<Byte>, total: nat): (cells: seq<Byte>)
    requires |planes| == total * CELL_SIZE
    ensures |cells| == total * CELL_SIZE
    ensures forall i :: 0 <= i < |cells| ==> cells[i] == CellByte(planes, total, i)
  {
    seq(total * CELL_SIZE, i requires 0 <= i < total * CELL_SIZE => CellByte(planes, total, i))
  }

  function Clamp(n: nat, size: nat): nat
    requires size > 0
  {
    if n < size then n else size - 1
  }

  function StateOf(w: Wire): State
    requires WireFits(w)
  {
    var h, t := w.front.head, w.tables;
    State(h.rows, h.cols, Clamp(h.cursorRow, h.rows), Clamp(h.cursorCol, h.cols), h.mode,
          if w.keyboard.Some? then w.keyboard.value else 0,
          w.front.title, Transposed(w.front.planes, Total(h)), EntryMap(t.strings), t.lineFlags,
          t.scrollback, Fill(Zeros(Total(h)), t.runs), EntryMap(t.uris))
  }

  /** What `decode_snapshot` returns. */
  function DecodeSnapshot(b: seq<Byte>): Option<State> {
    match ParseWire(b)
    case None => None
    case Some(w) => ParseIsEncode(b, w); Some(StateOf(w))
  }

  /**
    What the renderer's reads rely on: buffers of the right size, the cursor on the screen,
    overflow strings on cells that exist, every link id resolvable.
   */
  predicate Consistent(s: State) {
    && Sized(s) && |s.lineFlags| == s.rows
    && (s.rows > 0 ==> s.cursorRow < s.rows) && (s.cols > 0 ==> s.cursorCol < s.cols)
    && (s.cellLinks == [] || |s.cellLinks| == s.rows * s.cols)
    && (forall i :: 0 <= i < |s.cellLinks| && s.cellLinks[i] != 0 ==> s.cellLinks[i] in s.linkUris)
    && (forall k :: k in s.overflow ==> k < s.rows * s.cols)
    && 0 !in s.linkUris && s.keyboardFlags < 32
    && IsUtf8(s.title)
    && (forall k :: k in s.overflow ==> IsUtf8(s.overflow[k]))
    && (forall k :: k in s.linkUris ==> IsUtf8(s.linkUris[k]))
  }

  lemma NewIsConsistent(rows: nat, cols: nat)
    ensures Consistent(NewState(rows, cols))
  {
  }

  lemma {:induction false} EntryMapTexts(es: seq<Entry>, t: Table)
    requires forall i :: 0 <= i < |es| ==> EntryFits(t, es[i]) && KeyAllowed(t, es[i].key)
    ensures forall k :: k in EntryMap(es) ==> IsUtf8(EntryMap(es)[k]) && KeyAllowed(t, k)
    decreases |es|
  {
    hide IsUtf8;
    if es != [] {
      EntryMapTexts(es[..|es| - 1], t);
    }
  }

  lemma {:induction false} FillKeepsResolvable(links: seq<nat>, rs: seq<Run>, uris: map<nat, seq<Byte>>)
    requires forall i :: 0 <= i < |rs| ==> rs[i].start + rs[i].len <= |links| && rs[i].id in uris
    requires forall i :: 0 <= i < |links| && links[i] != 0 ==> links[i] in uris
    ensures forall i :: 0 <= i < |links| && Fill(links, rs)[i] != 0 ==> Fill(links, rs)[i] in uris
    decreases |rs|
  {
    if rs != [] {
      hide FillRun;
      FillKeepsResolvable(FillRun(links, rs[0]), rs[1..], uris);
    }
  }

  /** Whatever is accepted is a consistent state. */
  lemma AcceptedIsConsistent(b: seq<Byte>)
    requires DecodeSnapshot(b).Some?
    ensures Consistent(DecodeSnapshot(b).value)
  {
    hide IsUtf8, EntryMap, Fill, Transposed, EntryFits, ParseWire, Encode;
    var w := ParseWire(b).value;
    ParseIsEncode(b, w);
    var h, t := w.front.head, w.tables;
    if !HasStrings(h.field) {
      assert t.strings == [];
    }
    EntryMapTexts(t.strings, Overflow(Total(h)));
    EntryMapTexts(t.uris, Uris);
    FillKeepsResolvable(Zeros(Total(h)), t.runs, EntryMap(t.uris));
  }

  /** Acceptance and its result are exactly those of printing. */
  lemma DecodeIsEncode(b: seq<Byte>)
    ensures forall w :: WireFits(w) && b == Encode(w) ==> DecodeSnapshot(b) == Some(StateOf(w))
    ensures DecodeSnapshot(b).Some? ==> exists w :: WireFits(w) && b == Encode(w)
  {
    hide WireFits, Encode, ParseWire, StateOf;
    forall w | WireFits(w) && b == Encode(w) ensures DecodeSnapshot(b) == Some(StateOf(w)) {
      ParseIsEncode(b, w);
    }
    if DecodeSnapshot(b).Some? {
      ParseIsEncode(b, ParseWire(b).value);
    }
  }

  // ---------------------------------------------------------------------------------------
  // Every representable state has a payload
  // ---------------------------------------------------------------------------------------

  /** How far the link at `i` extends, at most one run's worth. */
  function RunLen(links: seq<nat>, i: nat, n: nat): (len: nat)
    requires i + n <= |links| && n < 0x1_0000 && (forall k :: i <= k < i + n ==> links[k] == links[i])
    ensures n <= len < 0x1_0000 && i + len <= |links| && (forall k :: i <= k < i + len ==> links[k] == links[i])
    decreases |links| - i - n
  {
    if i + n < |links| && n + 1 < 0x1_0000 && links[i + n] == links[i] then RunLen(links, i, n + 1) else n
  }

  /** The runs a screen's links are written as. */
  function RunsFrom(links: seq<nat>, i: nat): seq<Run>
    requires i <= |links|
    decreases |links| - i
  {
    if i == |links| then []
    else if links[i] == 0 then RunsFrom(links, i + 1)
    else var len := RunLen(links, i, 1); [Run(i, len, links[i])] + RunsFrom(links, i + len)
  }

  /** The limits of the format. */
  predicate Representable(s: State) {
    && 0 < s.rows < 0x1_0000 && 0 < s.cols < 0x1_0000 && s.rows * s.cols <= MAX_CELL_COUNT
    && |s.cellLinks| == s.rows * s.cols && |RunsFrom(s.cellLinks, 0)| < 0x1_0000
    && s.mode < 0x1_0000 && |s.title| < 0x1000 && s.scrollbackLines < 0x1_0000_0000
    && |s.overflow| < 0x1_0000 && (forall k :: k in s.overflow ==> |s.overflow[k]| < 0x1_0000)
    && |s.linkUris| < 0x1_0000 && (forall k :: k in s.linkUris ==> k < 0x1_0000 && |s.linkUris[k]| < 0x1_0000)
  }

  lemma {:induction false} RunsAreValid(links: seq<nat>, i: nat, uris: map<nat, seq<Byte>>)
    requires i <= |links| <= MAX_CELL_COUNT
    requires forall k :: 0 <= k < |links| && links[k] != 0 ==> links[k] in uris && links[k] < 0x1_0000
    ensures ValidRuns(|links|, uris, RunsFrom(links, i))
    decreases |links| - i
  {
    if i < |links| {
      RunsAreValid(links, if links[i] == 0 then i + 1 else i + RunLen(links, i, 1), uris);
    }
  }

  /** Filling the runs of a screen's links into blanks restores the links. */
  lemma {:induction false} FillRestores(links: seq<nat>, i: nat)
    requires i <= |links|
    requires forall k :: 0 <= k < |RunsFrom(links, i)| ==>
        RunsFrom(links, i)[k].start + RunsFrom(links, i)[k].len <= |links|
    ensures Fill(Blanked(links, i), RunsFrom(links, i)) == links
    decreases |links| - i
  {
    hide FillRun;
    var n, rs := |links|, RunsFrom(links, i);
    if i == n {
      assert Blanked(links, i) == links;
    } else if links[i] == 0 {
      FillRestores(links, i + 1);
      assert Blanked(links, i) == Blanked(links, i + 1);
    } else {
      var len := RunLen(links, i, 1);
      assert rs[0] == Run(i, len, links[i]) && rs[1..] == RunsFrom(links, i + len);
      assert forall k :: 0 <= k < |rs[1..]| ==> rs[1..][k] == rs[k + 1];
      FillRestores(links, i + len);
      assert FillRun(Blanked(links, i), rs[0]) == Blanked(links, i + len);
    }
  }

  /** The links of the first `i` cells, none after them. */
  function Blanked(links: seq<nat>, i: nat): (r: seq<nat>)
    requires i <= |links|
    ensures |r| == |links| && forall k :: 0 <= k < |r| ==> r[k] == if k < i then links[k] else 0
  {
    links[..i] + Zeros(|links| - i)
  }

  /** A finite table can be listed entry by entry. */
  lemma {:induction false} Listing(m: map<nat, seq<Byte>>) returns (es: seq<Entry>)
    ensures |es| == |m| && EntryMap(es) == m
    ensures forall i :: 0 <= i < |es| ==> es[i].key in m && es[i].text == m[es[i].key]
    ensures forall i, j :: 0 <= i < j < |es| ==> es[i].key != es[j].key
    decreases |m|
  {
    if m == map[] {
      es := [];
    } else {
      var k :| k in m;
      var rest := m - {k};
      assert rest.Keys == m.Keys - {k};
      CardinalityWithout(m, k);
      var init := Listing(rest);
      es := init + [Entry(k, m[k])];
      assert es[..|es| - 1] == init;
      assert m == rest[k := m[k]];
    }
  }

  lemma CardinalityWithout(m: map<nat, seq<Byte>>, k: nat)
    requires k in m
    ensures |m - {k}| == |m| - 1
  {
    assert (m - {k}).Keys == m.Keys - {k};
    assert |m| == |m.Keys| && |m - {k}| == |(m - {k}).Keys|;
  }

  /** At most as many distinct keys below a bound as the bound. */
  lemma {:induction false} KeysBelow(keys: set<nat>, bound: nat)
    requires forall k :: k in keys ==> k < bound
    ensures |keys| <= bound
    decreases bound
  {
    if bound == 0 {
      assert keys == {};
    } else {
      KeysBelow(keys - {bound - 1}, bound - 1);
      assert |keys| <= |keys - {bound - 1}| + 1;
    }
  }

  /** The cells written plane by plane. */
  function PlanesTo(cells: seq<Byte>, total: nat, n: nat): seq<Byte>
    requires |cells| == total * CELL_SIZE && n <= CELL_SIZE
  {
    if n == 0 then []
    else PlanesTo(cells, total, n - 1) + seq(total, c requires 0 <= c < total => cells[c * CELL_SIZE + n - 1])
  }

  lemma {:induction false} PlanesAt(cells: seq<Byte>, total: nat, n: nat, p: nat, c: nat)
    requires |cells| == total * CELL_SIZE && p < n <= CELL_SIZE && c < total
    ensures |PlanesTo(cells, total, n)| == n * total
    ensures p * total + c < n * total && PlanesTo(cells, total, n)[p * total + c] == cells[c * CELL_SIZE + p]
    decreases n
  {
    var before := PlanesTo(cells, total, n - 1);
    PlanesLength(cells, total, n - 1);
    PlanesLength(cells, total, n);
    assert n * total == (n - 1) * total + total;
    if p < n - 1 {
      PlanesAt(cells, total, n - 1, p, c);
    }
  }

  lemma {:induction false} PlanesLength(cells: seq<Byte>, total: nat, n: nat)
    requires |cells| == total * CELL_SIZE && n <= CELL_SIZE
    ensures |PlanesTo(cells, total, n)| == n * total
    decreases n
  {
    if n > 0 {
      PlanesLength(cells, total, n - 1);
      assert n * total == (n - 1) * total + total;
    }
  }

  lemma TransposeRestores(cells: seq<Byte>, total: nat)
    requires |cells| == total * CELL_SIZE
    ensures |PlanesTo(cells, total, CELL_SIZE)| == total * CELL_SIZE
    ensures Transposed(PlanesTo(cells, total, CELL_SIZE), total) == cells
  {
    PlanesLength(cells, total, CELL_SIZE);
    var planes := PlanesTo(cells, total, CELL_SIZE);
    hide PlanesTo, Transposed;
    forall i | 0 <= i < |cells| ensures Transposed(planes, total)[i] == cells[i] {
      PlanesAt(cells, total, CELL_SIZE, i % CELL_SIZE, i / CELL_SIZE);
    }
  }

  function TitleField(strings: bool, len: nat): nat
    requires len < 0x1000
  {
    TITLE_PRESENT + OPS_PRESENT + LINE_FLAGS_PRESENT + (if strings then STRINGS_PRESENT else 0) + len
  }

  lemma FieldParts(strings: bool, len: nat)
    requires len < 0x1000
    ensures var field := TitleField(strings, len);
      field < 0x1_0000 && FlagsOk(field) && (HasStrings(field) <==> strings) && TitleLen(field) == len
  {
    var field, high := TitleField(strings, len), if strings then 15 else 13;
    assert field == 0x1000 * high + len;
    assert field / 0x1000 == high && field % 0x1000 == len;
    assert field / 0x2000 == high / 2 && field / 0x4000 == high / 4 && field / 0x8000 == high / 8;
  }

  function HeadOf(s: State): Head
    requires |s.title| < 0x1000
  {
    Head(s.rows, s.cols, s.cursorRow, s.cursorCol, s.mode, TitleField(true, |s.title|))
  }

  lemma FrontOf(s: State) returns (f: Front)
    requires Consistent(s) && Representable(s)
    ensures FrontFits(f) && f.head == HeadOf(s) && f.title == s.title && HasStrings(f.head.field)
    ensures Transposed(f.planes, s.rows * s.cols) == s.cells
  {
    hide IsUtf8, RunsFrom, Transposed, PlanesTo, TitleField, FlagsOk, HasStrings, TitleLen;
    var total := s.rows * s.cols;
    TransposeRestores(s.cells, total);
    f := Front(HeadOf(s), s.title, PlanesTo(s.cells, total, CELL_SIZE));
    FieldParts(true, |s.title|);
  }

  lemma ListingFits(m: map<nat, seq<Byte>>, t: Table) returns (es: seq<Entry>)
    requires forall k :: k in m ==> KeyFits(t, k) && KeyAllowed(t, k) && |m[k]| < 0x1_0000 && IsUtf8(m[k])
    ensures |es| == |m| && EntryMap(es) == m && ValidEntries(t, es)
  {
    hide IsUtf8, EntryMap;
    es := Listing(m);
  }

  lemma TablesOf(s: State) returns (t: Tables)
    requires Consistent(s) && Representable(s)
    ensures HasStrings(HeadOf(s).field) ==> TablesFit(HeadOf(s), t)
    ensures t.lineFlags == s.lineFlags && t.scrollback == s.scrollbackLines
    ensures EntryMap(t.strings) == s.overflow && EntryMap(t.uris) == s.linkUris
    ensures ValidRuns(s.rows * s.cols, s.linkUris, t.runs) && Fill(Zeros(s.rows * s.cols), t.runs) == s.cellLinks
  {
    hide IsUtf8, RunsFrom, EntryMap, Fill, ValidEntries, TitleField;
    var total := s.rows * s.cols;
    var strings := ListingFits(s.overflow, Overflow(total));
    var uris := ListingFits(s.linkUris, Uris);
    KeysBelow(s.overflow.Keys, total);
    assert |s.overflow| == |s.overflow.Keys|;
    RunsAreValid(s.cellLinks, 0, s.linkUris);
    FillRestores(s.cellLinks, 0);
    assert Blanked(s.cellLinks, 0) == Zeros(total);
    t := Tables(strings, s.lineFlags, s.scrollbackLines, uris, RunsFrom(s.cellLinks, 0));
  }

  /** Every consistent screen within the format's limits is the decoding of some payload. */
  lemma EveryStateHasASnapshot(s: State) returns (w: Wire)
    requires Consistent(s) && Representable(s)
    ensures WireFits(w) && StateOf(w) == s && DecodeSnapshot(Encode(w)) == Some(s)
  {
    var f := FrontOf(s);
    var t := TablesOf(s);
    hide IsUtf8, RunsFrom, Transposed, Fill, EntryMap, FrontFits, TablesFit, Encode, TitleField;
    w := Wire(f, t, Some(s.keyboardFlags));
    DecodeIsEncode(Encode(w));
  }

  // ---------------------------------------------------------------------------------------
  // Reading a cell's text
  // ---------------------------------------------------------------------------------------

  /** What `cell_content` does: return text, or slice past the end of the cell. */
  datatype Content = Text(bytes: seq<Byte>) | OutOfRange

  function CellContent(s: State, row: nat, col: nat): Content
    requires Sized(s)
  {
    if row >= s.rows || col >= s.cols then Text([])
    else
      var i := CellIndex(s, row, col);
      var flags := CellFlags(s, i);
      var len := ContentLen(flags);
      if IsSpacer(flags) then Text([])
      else if len == CONTENT_OVERFLOW then Text(if i in s.overflow then s.overflow[i] else [])
      else if len == 0 then Text([32])
      else if 8 + len > CELL_SIZE then OutOfRange
      else
        var bytes := s.cells[i * CELL_SIZE + 8..i * CELL_SIZE + 8 + len];
        Text(if IsUtf8(bytes) then bytes else [])
  }

  /** Reading fails exactly on a visible non-spacer cell whose length field is 5 or 6. */
  lemma ContentFailsExactly(s: State, row: nat, col: nat)
    requires Sized(s)
    ensures CellContent(s, row, col).OutOfRange? <==>
      && row < s.rows && col < s.cols
      && var flags := CellFlags(s, CellIndex(s, row, col));
         !IsSpacer(flags) && ContentLen(flags) in {5, 6}
  {
  }

  lemma EmptyIsUtf8()
    ensures IsUtf8([])
  {
  }

  lemma UnreadableCell(s: State, r: nat, c: nat)
    requires Sized(s) && s.rows == s.cols == 1 && s.cells[1] == 40 && r == c == 0
    ensures CellContent(s, r, c).OutOfRange?
  {
    ContentFailsExactly(s, r, c);
    hide CellContent;
    var i := CellIndex(s, r, c);
    assert i == 0;
    assert CellFlags(s, i) == 40;
  }

  lemma NoRuns(links: seq<nat>)
    requires |links| == 1 && links[0] == 0
    ensures RunsFrom(links, 0) == []
  {
    assert RunsFrom(links, 0) == RunsFrom(links, 1);
  }

  /** A one-cell screen whose cell announces more content bytes than a cell has. */
  lemma UnreadableScreen(cells: seq<Byte>, row: seq<Byte>, links: seq<nat>) returns (s: State)
    requires |cells| == CELL_SIZE && cells[1] == 40
    requires |row| == 1 && |links| == 1 && links[0] == 0
    ensures Consistent(s) && Representable(s) && CellContent(s, 0, 0).OutOfRange?
  {
    EmptyIsUtf8();
    NoRuns(links);
    hide IsUtf8, RunsFrom, CellContent;
    s := State(1, 1, 0, 0, 0, 0, [], cells, map[], row, 0, links, map[]);
    UnreadableCell(s, 0, 0);
  }

  /** Decoding does not protect against that: an accepted payload can hold such a cell. */
  lemma AcceptedCanFailToRead() returns (w: Wire)
    ensures WireFits(w) && DecodeSnapshot(Encode(w)).Some?
    ensures CellContent(DecodeSnapshot(Encode(w)).value, 0, 0).OutOfRange?
  {
    hide Consistent, Representable, CellContent, WireFits, Encode, DecodeSnapshot;
    var s := UnreadableScreen([0, 40, 0, 0, 0, 0, 0, 0, 0, 0, 0, 0], [0], [0]);
    w := EveryStateHasASnapshot(s);
    AcceptedIsConsistent(Encode(w));
  }
}
