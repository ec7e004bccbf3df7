/**
  Decoding a renderer snapshot, as a function: what payloads are accepted, what state an
  accepted payload stands for, and that every representable state has a payload.
*/
module Snapshot {
  import opened Common
  import opened Bytes
  import opened RendererState
  import opened SnapshotFormat

  // ---------------------------------------------------------------------------------------
  // The fixed front: geometry, cursor, modes, title, operations, cell planes
  // ---------------------------------------------------------------------------------------

  datatype Head = Head(rows: nat, cols: nat, cursorRow: nat, cursorCol: nat, mode: nat, field: nat)

  datatype Front = Front(head: Head, title: seq<Byte>, planes: seq<Byte>)

  function Total(h: Head): nat { h.rows * h.cols }

  function GetHead(b: seq<Byte>): Parsed<Head> {
    if |b| < 12 then Fail
    else Got(Head(FromU16(b[..2]), FromU16(b[2..4]), FromU16(b[4..6]),
        FromU16(b[6..8]), FromU16(b[8..10]), FromU16(b[10..12])), b[12..])
  }

  predicate HeadFits(h: Head) {
    && h.rows < 0x1_0000 && h.cols < 0x1_0000 && h.cursorRow < 0x1_0000 && h.cursorCol < 0x1_0000
    && h.mode < 0x1_0000 && h.field < 0x1_0000
  }

  function PutHead(h: Head): (b: seq<Byte>)
    requires HeadFits(h)
    ensures |b| == 12
  {
    U16(h.rows) + U16(h.cols) + U16(h.cursorRow) + U16(h.cursorCol) + U16(h.mode) + U16(h.field)
  }

  lemma GetHeadIsPut(b: seq<Byte>, h: Head, rest: seq<Byte>)
    ensures GetHead(b) == Got(h, rest) <==> HeadFits(h) && b == PutHead(h) + rest
  {
    if |b| >= 12 {
      U16Inverse(b[..2]);
      U16Inverse(b[2..4]);
      U16Inverse(b[4..6]);
      U16Inverse(b[6..8]);
      U16Inverse(b[8..10]);
      U16Inverse(b[10..12]);
      hide FromU16, U16;
      var g := GetHead(b);
      assert PutHead(g.value) == b[..12];
      assert b == b[..12] + b[12..];
    }
    if HeadFits(h) && b == PutHead(h) + rest {
      PutHeadFields(h, b, rest);
    }
  }

  lemma PutHeadFields(h: Head, b: seq<Byte>, rest: seq<Byte>)
    requires HeadFits(h) && b == PutHead(h) + rest
    ensures GetHead(b) == Got(h, rest)
  {
    U16RoundTrip(h.rows);
    U16RoundTrip(h.cols);
    U16RoundTrip(h.cursorRow);
    U16RoundTrip(h.cursorCol);
    U16RoundTrip(h.mode);
    U16RoundTrip(h.field);
    assert forall n: nat :: n < 0x1_0000 ==> |U16(n)| == 2;
    hide FromU16, U16;
    assert b[..2] == U16(h.rows) && b[2..4] == U16(h.cols) && b[4..6] == U16(h.cursorRow);
    assert b[6..8] == U16(h.cursorCol) && b[8..10] == U16(h.mode) && b[10..12] == U16(h.field);
    assert b[12..] == rest;
  }

  /** Title, operations and line flags are mandatory; strings are optional. */
  predicate FlagsOk(field: nat) {
    field / TITLE_PRESENT % 2 == 1 && field / OPS_PRESENT % 2 == 1 && field / LINE_FLAGS_PRESENT % 2 == 1
  }

  predicate HasStrings(field: nat) { field / STRINGS_PRESENT % 2 == 1 }

  function TitleLen(field: nat): nat { field % 0x1000 }

  predicate GeometryOk(h: Head) { h.rows != 0 && h.cols != 0 && Total(h) <= MAX_CELL_COUNT }

  function LowBits(n: nat): Byte
    requires n < 8
  {
    [0, 1, 3, 7, 15, 31, 63, 127][n]
  }

  function BitmapLen(total: nat): nat { (total + 7) / 8 }

  function BitmapByte(total: nat, i: nat): Byte {
    if i + 1 == BitmapLen(total) && total % 8 != 0 then LowBits(total % 8) else 0xFF
  }

  function Bitmap(total: nat): seq<Byte> { seq(BitmapLen(total), i requires 0 <= i => BitmapByte(total, i)) }

  function BlankCell(): seq<Byte> { seq(CELL_SIZE, _ => 0) }

  /** One fill with blanks, then one patch of every cell: the only operations accepted. */
  function Operations(rows: nat, cols: nat): seq<Byte>
    requires rows < 0x1_0000 && cols < 0x1_0000
  {
    U16(2) + ([OP_FILL_RECT] + (U16(0) + (U16(0) + (U16(rows) + (U16(cols)
    + (BlankCell() + ([OP_PATCH_CELLS] + Bitmap(rows * cols))))))))
  }

  function Expect(b: seq<Byte>, what: seq<Byte>): Parsed<()> {
    if what <= b then Got((), b[|what|..]) else Fail
  }

  function GetFront(b: seq<Byte>): Parsed<Front> {
    match GetHead(b)
    case Fail => Fail
    case Got(h, b1) =>
      if !GeometryOk(h) || !FlagsOk(h.field) then Fail
      else match Take(b1, TitleLen(h.field))
        case Fail => Fail
        case Got(title, b2) =>
          if !IsUtf8(title) || h.rows >= 0x1_0000 || h.cols >= 0x1_0000 then Fail
          else match Expect(b2, Operations(h.rows, h.cols))
            case Fail => Fail
            case Got(_, b3) =>
              match Take(b3, Total(h) * CELL_SIZE)
              case Fail => Fail
              case Got(planes, rest) => Got(Front(h, title, planes), rest)
  }

  predicate FrontFits(f: Front) {
    && HeadFits(f.head) && GeometryOk(f.head) && FlagsOk(f.head.field)
    && |f.title| == TitleLen(f.head.field) && IsUtf8(f.title)
    && |f.planes| == Total(f.head) * CELL_SIZE
  }

  function PutFront(f: Front): seq<Byte>
    requires FrontFits(f)
  {
    PutHead(f.head) + f.title + Operations(f.head.rows, f.head.cols) + f.planes
  }

  lemma GetFrontIsPut(b: seq<Byte>, f: Front, rest: seq<Byte>)
    ensures GetFront(b) == Got(f, rest) <==> FrontFits(f) && b == PutFront(f) + rest
  {
    hide GetHead, PutHead, HeadFits, GeometryOk, FlagsOk, TitleLen, IsUtf8, Take, Operations;
    if GetFront(b) == Got(f, rest) {
      var b1 := GetHead(b).rest;
      GetHeadIsPut(b, f.head, b1);
      var b2 := Take(b1, TitleLen(f.head.field)).rest;
      TakeIsAppend(b1, TitleLen(f.head.field), f.title, b2);
      var ops := Operations(f.head.rows, f.head.cols);
      var b3 := b2[|ops|..];
      assert b2 == ops + b3;
      TakeIsAppend(b3, Total(f.head) * CELL_SIZE, f.planes, rest);
      assert b == PutHead(f.head) + (f.title + (ops + (f.planes + rest)));
      assert b == PutFront(f) + rest;
    }
    if FrontFits(f) && b == PutFront(f) + rest {
      assert f.head.rows < 0x1_0000 && f.head.cols < 0x1_0000 by { HeadBounds(f.head); }
      var ops := Operations(f.head.rows, f.head.cols);
      var b3 := f.planes + rest;
      var b2 := ops + b3;
      var b1 := f.title + b2;
      assert b == PutHead(f.head) + b1;
      GetHeadIsPut(b, f.head, b1);
      TakeIsAppend(b1, TitleLen(f.head.field), f.title, b2);
      assert b2[|ops|..] == b3 && ops <= b2;
      TakeIsAppend(b3, Total(f.head) * CELL_SIZE, f.planes, rest);
    }
  }

  lemma HeadBounds(h: Head)
    requires HeadFits(h)
    ensures h.rows < 0x1_0000 && h.cols < 0x1_0000
  {
  }

  // ---------------------------------------------------------------------------------------
  // The tables
  // ---------------------------------------------------------------------------------------

  datatype Tables = Tables(strings: seq<Entry>, lineFlags: seq<Byte>, scrollback: nat, uris: seq<Entry>, runs: seq<Run>)

  /** The overflow strings, when the header announces them. */
  function GetStrings(h: Head, b: seq<Byte>): Parsed<seq<Entry>> {
    if !HasStrings(h.field) then Got([], b)
    else match GetU16(b)
      case Fail => Fail
      case Got(count, more) => if count > Total(h) then Fail else GetEntries(Overflow(Total(h)), more, count, [])
  }

  function GetUris(b: seq<Byte>): Parsed<seq<Entry>> {
    match GetU16(b) case Fail => Fail case Got(count, more) => GetEntries(Uris, more, count, [])
  }

  function GetLinks(total: nat, uris: seq<Entry>, b: seq<Byte>): Parsed<seq<Run>> {
    match GetU16(b) case Fail => Fail case Got(count, more) => GetRuns(total, EntryMap(uris), more, count)
  }

  function GetTables(h: Head, b: seq<Byte>): Parsed<Tables> {
    match GetStrings(h, b)
    case Fail => Fail
    case Got(strings, b1) =>
      match Take(b1, h.rows)
      case Fail => Fail
      case Got(lineFlags, b2) =>
        match GetU32(b2)
        case Fail => Fail
        case Got(scrollback, b3) =>
          match GetUris(b3)
          case Fail => Fail
          case Got(uris, b4) =>
            match GetLinks(Total(h), uris, b4)
            case Fail => Fail
            case Got(runs, rest) => Got(Tables(strings, lineFlags, scrollback, uris, runs), rest)
  }

  predicate StringsFit(h: Head, strings: seq<Entry>) {
    if HasStrings(h.field)
    then |strings| <= Total(h) && |strings| < 0x1_0000 && ValidEntries(Overflow(Total(h)), strings)
    else strings == []
  }

  predicate UrisFit(uris: seq<Entry>) { |uris| < 0x1_0000 && ValidEntries(Uris, uris) }

  predicate LinksFit(total: nat, uris: seq<Entry>, runs: seq<Run>) {
    |runs| < 0x1_0000 && ValidRuns(total, EntryMap(uris), runs)
  }

  predicate TablesFit(h: Head, t: Tables) {
    && StringsFit(h, t.strings) && |t.lineFlags| == h.rows && t.scrollback < 0x1_0000_0000
    && UrisFit(t.uris) && LinksFit(Total(h), t.uris, t.runs)
  }

  function PutStrings(h: Head, strings: seq<Entry>): seq<Byte>
    requires StringsFit(h, strings)
  {
    if HasStrings(h.field) then U16(|strings|) + PutEntries(Overflow(Total(h)), strings) else []
  }

  function PutUris(uris: seq<Entry>): seq<Byte>
    requires UrisFit(uris)
  {
    U16(|uris|) + PutEntries(Uris, uris)
  }

  function PutLinks(total: nat, uris: seq<Entry>, runs: seq<Run>): seq<Byte>
    requires LinksFit(total, uris, runs)
  {
    U16(|runs|) + PutRuns(runs)
  }

  function PutTables(h: Head, t: Tables): seq<Byte>
    requires TablesFit(h, t)
  {
    PutStrings(h, t.strings) + t.lineFlags + U32(t.scrollback) + PutUris(t.uris) + PutLinks(Total(h), t.uris, t.runs)
  }

  lemma CountedGot(table: Table, b: seq<Byte>, count: nat, more: seq<Byte>, es: seq<Entry>, rest: seq<Byte>)
    requires GetU16(b) == Got(count, more) && GetEntries(table, more, count, []) == Got(es, rest)
    ensures |es| == count < 0x1_0000 && ValidEntries(table, es) && b == U16(|es|) + PutEntries(table, es) + rest
  {
    hide GetU16, U16, GetEntries, PutEntries, EntryFits, KeyAllowed;
    GetU16IsU16(b, count, more);
    var es' := PutGetEntries(table, more, count, []);
    assert [] + es' == es';
    assert U16(|es|) + (PutEntries(table, es) + rest) == U16(|es|) + PutEntries(table, es) + rest;
  }

  lemma CountedPut(table: Table, es: seq<Entry>, rest: seq<Byte>)
    requires |es| < 0x1_0000 && ValidEntries(table, es)
    ensures var more := PutEntries(table, es) + rest;
      && GetU16(U16(|es|) + PutEntries(table, es) + rest) == Got(|es|, more)
      && GetEntries(table, more, |es|, []) == Got(es, rest)
  {
    hide GetU16, U16, GetEntries, PutEntries, EntryFits, KeyAllowed;
    var more := PutEntries(table, es) + rest;
    assert U16(|es|) + PutEntries(table, es) + rest == U16(|es|) + more;
    GetU16IsU16(U16(|es|) + more, |es|, more);
    assert [] + es == es;
    GetPutEntries(table, es, [], rest);
  }

  /** A counted table of entries parses exactly to what prints to it. */
  lemma CountedEntries(table: Table, b: seq<Byte>, es: seq<Entry>, rest: seq<Byte>)
    ensures (exists count, more :: GetU16(b) == Got(count, more) && GetEntries(table, more, count, []) == Got(es, rest))
       <==> |es| < 0x1_0000 && ValidEntries(table, es) && b == U16(|es|) + PutEntries(table, es) + rest
  {
    hide GetU16, U16, GetEntries, PutEntries, EntryFits, KeyAllowed;
    if exists count, more :: GetU16(b) == Got(count, more) && GetEntries(table, more, count, []) == Got(es, rest) {
      var count, more :| GetU16(b) == Got(count, more) && GetEntries(table, more, count, []) == Got(es, rest);
      CountedGot(table, b, count, more, es, rest);
    }
    if |es| < 0x1_0000 && ValidEntries(table, es) && b == U16(|es|) + PutEntries(table, es) + rest {
      CountedPut(table, es, rest);
    }
  }

  lemma GetStringsIsPut(h: Head, b: seq<Byte>, strings: seq<Entry>, rest: seq<Byte>)
    ensures GetStrings(h, b) == Got(strings, rest) <==> StringsFit(h, strings) && b == PutStrings(h, strings) + rest
  {
    hide GetU16, U16, GetEntries, PutEntries, ValidEntries;
    var total := Total(h);
    if HasStrings(h.field) {
      CountedEntries(Overflow(total), b, strings, rest);
      if GetStrings(h, b) == Got(strings, rest) {
        var count, more := GetU16(b).value, GetU16(b).rest;
        var es := GetEntriesCount(Overflow(total), more, count);
      }
      if StringsFit(h, strings) && b == PutStrings(h, strings) + rest {
        var count, more :|
          GetU16(b) == Got(count, more) && GetEntries(Overflow(total), more, count, []) == Got(strings, rest);
        var es := GetEntriesCount(Overflow(total), more, count);
      }
    } else {
      assert PutStrings(h, []) + rest == rest;
    }
  }

  lemma GetEntriesCount(table: Table, b: seq<Byte>, n: nat) returns (es: seq<Entry>)
    requires GetEntries(table, b, n, []).Got?
    ensures GetEntries(table, b, n, []).value == es && |es| == n
  {
    es := PutGetEntries(table, b, n, []);
    assert [] + es == es;
  }

  lemma GetUrisIsPut(b: seq<Byte>, uris: seq<Entry>, rest: seq<Byte>)
    ensures GetUris(b) == Got(uris, rest) <==> UrisFit(uris) && b == PutUris(uris) + rest
  {
    hide GetU16, U16, GetEntries, PutEntries, ValidEntries;
    CountedEntries(Uris, b, uris, rest);
  }

  lemma GetLinksIsPut(total: nat, uris: seq<Entry>, b: seq<Byte>, runs: seq<Run>, rest: seq<Byte>)
    ensures GetLinks(total, uris, b) == Got(runs, rest)
       <==> LinksFit(total, uris, runs) && b == PutLinks(total, uris, runs) + rest
  {
    hide GetU16, U16, GetRuns, PutRuns, EntryMap;
    if GetLinks(total, uris, b) == Got(runs, rest) {
      var count, more := GetU16(b).value, GetU16(b).rest;
      GetU16IsU16(b, count, more);
      GetRunsIsPut(total, EntryMap(uris), more, count, runs, rest);
      assert U16(count) + (PutRuns(runs) + rest) == PutLinks(total, uris, runs) + rest;
    }
    if LinksFit(total, uris, runs) && b == PutLinks(total, uris, runs) + rest {
      var more := PutRuns(runs) + rest;
      assert b == U16(|runs|) + more;
      GetU16IsU16(b, |runs|, more);
      GetRunsIsPut(total, EntryMap(uris), more, |runs|, runs, rest);
    }
  }

  lemma GetTablesIsPut(h: Head, b: seq<Byte>, t: Tables, rest: seq<Byte>)
    ensures GetTables(h, b) == Got(t, rest) <==> TablesFit(h, t) && b == PutTables(h, t) + rest
  {
    hide GetStrings, PutStrings, StringsFit, GetUris, PutUris, UrisFit, GetLinks, PutLinks, LinksFit;
    hide GetU32, U32, Take;
    if GetTables(h, b) == Got(t, rest) {
      var b1 := GetStrings(h, b).rest;
      var b2 := Take(b1, h.rows).rest;
      var b3 := GetU32(b2).rest;
      var b4 := GetUris(b3).rest;
      GetStringsIsPut(h, b, t.strings, b1);
      TakeIsAppend(b1, h.rows, t.lineFlags, b2);
      GetU32IsU32(b2, t.scrollback, b3);
      GetUrisIsPut(b3, t.uris, b4);
      GetLinksIsPut(Total(h), t.uris, b4, t.runs, rest);
      var x, y := PutStrings(h, t.strings), PutUris(t.uris);
      assert b == x + (t.lineFlags + (U32(t.scrollback) + (y + (PutLinks(Total(h), t.uris, t.runs) + rest))));
      assert b == PutTables(h, t) + rest;
    }
    if TablesFit(h, t) && b == PutTables(h, t) + rest {
      var b4 := PutLinks(Total(h), t.uris, t.runs) + rest;
      var b3 := PutUris(t.uris) + b4;
      var b2 := U32(t.scrollback) + b3;
      var b1 := t.lineFlags + b2;
      assert b == PutStrings(h, t.strings) + b1;
      GetStringsIsPut(h, b, t.strings, b1);
      TakeIsAppend(b1, h.rows, t.lineFlags, b2);
      GetU32IsU32(b2, t.scrollback, b3);
      GetUrisIsPut(b3, t.uris, b4);
      GetLinksIsPut(Total(h), t.uris, b4, t.runs, rest);
    }
  }

  // ---------------------------------------------------------------------------------------
  // Whole payloads
  // ---------------------------------------------------------------------------------------

  datatype Wire = Wire(front: Front, tables: Tables, keyboard: Option<Byte>)

  /** The optional trailing byte of keyboard flags, which must end the payload. */
  function GetKeyboard(b: seq<Byte>): Option<Option<Byte>> {
    if b == [] then Some(None) else if |b| == 1 && b[0] < 32 then Some(Some(b[0])) else None
  }

  predicate WireFits(w: Wire) {
    FrontFits(w.front) && TablesFit(w.front.head, w.tables) && (w.keyboard.Some? ==> w.keyboard.value < 32)
  }

  function Encode(w: Wire): seq<Byte>
    requires WireFits(w)
  {
    PutFront(w.front) + PutTables(w.front.head, w.tables) + (if w.keyboard.Some? then [w.keyboard.value] else [])
  }

  function ParseWire(b: seq<Byte>): Option<Wire> {
    match GetFront(b)
    case Fail => None
    case Got(f, b1) =>
      match GetTables(f.head, b1)
      case Fail => None
      case Got(t, b2) =>
        match GetKeyboard(b2)
        case None => None
        case Some(k) => Some(Wire(f, t, k))
  }

  /** Parsing accepts exactly the printed payloads and returns what they were printed from. */
  lemma ParseIsEncode(b: seq<Byte>, w: Wire)
    ensures ParseWire(b) == Some(w) <==> WireFits(w) && b == Encode(w)
  {
    hide GetFront, PutFront, FrontFits, GetTables, PutTables, TablesFit;
    if ParseWire(b) == Some(w) {
      var b1 := GetFront(b).rest;
      var b2 := GetTables(w.front.head, b1).rest;
      GetFrontIsPut(b, w.front, b1);
      GetTablesIsPut(w.front.head, b1, w.tables, b2);
      assert b == PutFront(w.front) + (PutTables(w.front.head, w.tables) + b2);
      assert b == Encode(w);
    }
    if WireFits(w) && b == Encode(w) {
      var b2 := if w.keyboard.Some? then [w.keyboard.value] else [];
      var b1 := PutTables(w.front.head, w.tables) + b2;
      assert b == PutFront(w.front) + b1;
      GetFrontIsPut(b, w.front, b1);
      GetTablesIsPut(w.front.head, b1, w.tables, b2);
    }
  }
}
