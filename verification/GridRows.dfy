/** Terminal cells and rows, and the text a row range is rendered to. */
module GridRows {
  import opened Common
  import opened Bytes

  /** Named colours below 256 are palette entries; the others are roles such as the default foreground. */
  datatype Color = Named(n: nat) | Indexed(i: Byte) | Rgb(r: Byte, g: Byte, b: Byte)

  datatype Style = Style(fg: Color, bg: Color, bold: bool, dim: bool, italic: bool, underline: bool, inverse: bool)

  /** The optional part of a cell: combining marks and a hyperlink. */
  datatype Extra = Extra(zerowidth: string, uri: Option<seq<Byte>>)

  /** A grid cell: its character (NUL when never written), and which half of a wide glyph it is. */
  datatype Cell = Cell(c: char, extra: Option<Extra>, wide: bool, spacer: bool, style: Style)

  /** A grid row and whether it soft-wraps into the next. */
  datatype Row = Row(cells: seq<Cell>, wrapped: bool)

  function Marks(cell: Cell): string { if cell.extra.Some? then cell.extra.value.zerowidth else [] }

  function CellText(cell: Cell): string {
    if cell.spacer then [] else [if cell.c == '\0' then ' ' else cell.c] + Marks(cell)
  }

  /** The text of the cells from `c0` to `c1` exclusive. */
  function CellsText(cells: seq<Cell>, c0: nat, c1: nat): string
    requires c1 <= |cells|
    decreases c1
  {
    if c1 <= c0 then [] else CellsText(cells, c0, c1 - 1) + CellText(cells[c1 - 1])
  }

  /** The Unicode White_Space property, which `trim_end` goes by. */
  predicate IsWhite(c: char) {
    || '\U{9}' <= c <= '\U{d}' || c == ' ' || c == '\U{85}' || c == '\U{a0}' || c == '\U{1680}'
    || '\U{2000}' <= c <= '\U{200a}' || c == '\U{2028}' || c == '\U{2029}' || c == '\U{202f}'
    || c == '\U{205f}' || c == '\U{3000}'
  }

  /** The length of the first `n` characters of `s` without their trailing blanks. */
  function TrimmedLen(s: string, n: nat): (k: nat)
    requires n <= |s|
    ensures k <= n
  {
    if n == 0 || !IsWhite(s[n - 1]) then n else TrimmedLen(s, n - 1)
  }

  function TrimEnd(s: string): string { s[..TrimmedLen(s, |s|)] }

  function Rendered(text: string, wrapped: bool): string {
    if wrapped then text else TrimEnd(text)
  }

  /** The text of columns `c0` to `c1` inclusive; a soft-wrapped row keeps its trailing blanks. */
  function RowText(row: Row, c0: nat, c1: nat): string {
    if c1 < |row.cells| then Rendered(CellsText(row.cells, c0, c1 + 1), row.wrapped) else []
  }

  function CharBytes(c: char): nat {
    if c < '\U{80}' then 1 else if c < '\U{800}' then 2 else if c < '\U{10000}' then 3 else 4
  }

  /** Length in UTF-8 bytes of the first `n` characters, the unit of the readers' byte caps. */
  function BytesTo(s: string, n: nat): nat
    requires n <= |s|
  {
    if n == 0 then 0 else BytesTo(s, n - 1) + CharBytes(s[n - 1])
  }

  function ByteLen(s: string): nat { BytesTo(s, |s|) }

  lemma Assoc<T>(a: seq<T>, b: seq<T>, c: seq<T>)
    ensures (a + b) + c == a + (b + c)
  {
  }

  lemma {:induction false} BytesToConcat(s: string, t: string, n: nat)
    requires n <= |s + t|
    ensures BytesTo(s + t, n) == if n <= |s| then BytesTo(s, n) else BytesTo(s, |s|) + BytesTo(t, n - |s|)
    decreases n
  {
    if n > 0 {
      BytesToConcat(s, t, n - 1);
    }
  }

  lemma ByteLenConcat(s: string, t: string)
    ensures ByteLen(s + t) == ByteLen(s) + ByteLen(t)
  {
    BytesToConcat(s, t, |s + t|);
  }

  lemma NewlineBytes()
    ensures ByteLen(['\n']) == 1 && ByteLen([]) == 0
  {
    assert BytesTo(['\n'], 0) == 0;
  }

  lemma {:induction false} CellsTextSplit(cells: seq<Cell>, a: nat, b: nat, c: nat)
    requires a <= b <= c <= |cells|
    ensures CellsText(cells, a, c) == CellsText(cells, a, b) + CellsText(cells, b, c)
    decreases c
  {
    if b < c {
      CellsTextSplit(cells, a, b, c - 1);
      Assoc(CellsText(cells, a, b), CellsText(cells, b, c - 1), CellText(cells[c - 1]));
    } else {
      assert CellsText(cells, a, b) + [] == CellsText(cells, a, b);
    }
  }

  lemma {:induction false} CellsTextSame(cells: seq<Cell>, cells': seq<Cell>, a: nat, b: nat)
    requires b <= |cells| && b <= |cells'| && cells[..b] == cells'[..b]
    ensures CellsText(cells, a, b) == CellsText(cells', a, b)
    decreases b
  {
    if a < b {
      assert cells[..b - 1] == cells[..b][..b - 1] == cells'[..b - 1];
      assert cells[b - 1] == cells[..b][b - 1] == cells'[b - 1];
      CellsTextSame(cells, cells', a, b - 1);
    }
  }

  lemma {:induction false} TrimmedLenConcat(s: string, t: string, n: nat)
    requires n <= |t|
    ensures TrimmedLen(s + t, |s| + n)
         == if TrimmedLen(t, n) == 0 then TrimmedLen(s, |s|) else |s| + TrimmedLen(t, n)
    decreases n
  {
    if n == 0 {
      TrimmedLenPrefix(s, t, |s|);
    } else if IsWhite(t[n - 1]) {
      TrimmedLenConcat(s, t, n - 1);
    }
  }

  lemma {:induction false} TrimmedLenPrefix(s: string, t: string, n: nat)
    requires n <= |s|
    ensures TrimmedLen(s + t, n) == TrimmedLen(s, n)
    decreases n
  {
    if n > 0 && IsWhite(s[n - 1]) {
      TrimmedLenPrefix(s, t, n - 1);
    }
  }

  /** Trimming a concatenation stops in the second part unless that part is all blank. */
  lemma TrimEndConcat(s: string, t: string)
    ensures TrimEnd(s + t) == if TrimEnd(t) == [] then TrimEnd(s) else s + TrimEnd(t)
  {
    TrimmedLenConcat(s, t, |t|);
  }

  /**
    Rendering in two parts loses exactly the blanks that end the first part, unless nothing
    follows them.
   */
  lemma RenderInTwoParts(before: string, rest: string, wrapped: bool)
    ensures TrimEnd(before) + Rendered(rest, wrapped) == Rendered(before + rest, wrapped) <==>
            (TrimEnd(before) == before || (!wrapped && TrimEnd(rest) == []))
  {
    TrimEndConcat(before, rest);
    if !wrapped && TrimEnd(rest) == [] {
      assert TrimEnd(before) + [] == TrimEnd(before);
    } else if TrimEnd(before) != before {
      assert |TrimEnd(before)| < |before|;
    }
  }

  /** The blanks that are trimmed, by their code points: the 25 with the White_Space property. */
  lemma WhiteSpaceCodes(c: char)
    ensures IsWhite(c) <==>
      c as int in {0x9, 0xA, 0xB, 0xC, 0xD, 0x20, 0x85, 0xA0, 0x1680, 0x2000, 0x2001, 0x2002, 0x2003, 0x2004, 0x2005,
                   0x2006, 0x2007, 0x2008, 0x2009, 0x200A, 0x2028, 0x2029, 0x202F, 0x205F, 0x3000}
  {
  }

  /** Trimming cuts off blanks only, and all of them. */
  lemma TrimEndIs(s: string)
    ensures var t := TrimEnd(s);
      && t <= s && (forall i :: |t| <= i < |s| ==> IsWhite(s[i])) && (t != [] ==> !IsWhite(t[|t| - 1]))
  {
    hide IsWhite;
    TrimmedLenIs(s, |s|);
  }

  lemma {:induction false} TrimmedLenIs(s: string, n: nat)
    requires n <= |s|
    ensures var k := TrimmedLen(s, n);
      (forall i :: k <= i < n ==> IsWhite(s[i])) && (k > 0 ==> !IsWhite(s[k - 1]))
    decreases n
  {
    hide IsWhite;
    if n > 0 && IsWhite(s[n - 1]) {
      TrimmedLenIs(s, n - 1);
    }
  }

  lemma CellAppended(cells: seq<Cell>, c0: nat, col: nat)
    requires c0 <= col < |cells|
    ensures cells[col].spacer ==> CellsText(cells, c0, col + 1) == CellsText(cells, c0, col)
    ensures !cells[col].spacer ==> var c := if cells[col].c == '\0' then ' ' else cells[col].c;
      CellsText(cells, c0, col + 1) == CellsText(cells, c0, col) + [c] + Marks(cells[col])
  {
    var text, cell := CellsText(cells, c0, col), cells[col];
    if cell.spacer {
      assert text + [] == text;
    } else {
      Assoc(text, [if cell.c == '\0' then ' ' else cell.c], Marks(cell));
    }
  }

  /** The text read once the loop has come to `col`; a range may start beyond its end. */
  function ReadTo(cells: seq<Cell>, c0: nat, col: nat): string
    requires col <= |cells|
  {
    if col <= c0 then [] else CellsText(cells, c0, col)
  }

  lemma ReadToWhole(row: Row, c0: nat, c1: nat)
    requires c1 < |row.cells|
    ensures RowText(row, c0, c1) == Rendered(ReadTo(row.cells, c0, c1 + 1), row.wrapped)
  {
  }

  method ReadRow(row: Row, c0: nat, c1: nat) returns (text: string, wrapped: bool)
    requires c1 < |row.cells|
    ensures text == RowText(row, c0, c1) && wrapped == row.wrapped
  {
    hide RowText, CellsText, CellText, TrimEnd, ReadTo;
    ReadToWhole(row, c0, c1);
    text := ReadCells(row.cells, c0, c1);
    wrapped := row.wrapped;
    if !wrapped {
      text := TrimEnd(text);
    }
  }

  /** The loop over the cells. */
  method ReadCells(cells: seq<Cell>, c0: nat, c1: nat) returns (text: string)
    requires c1 < |cells|
    ensures text == ReadTo(cells, c0, c1 + 1)
  {
    hide CellsText, CellText;
    text := [];
    if c0 > c1 {
      return;
    }
    CellsTextNone(cells, c0);
    var col := c0;
    while col <= c1
      invariant c0 <= col <= c1 + 1 && text == CellsText(cells, c0, col)
    {
      text := PushCell(cells, c0, col, text);
      col := col + 1;
    }
  }

  lemma CellsTextNone(cells: seq<Cell>, c0: nat)
    requires c0 <= |cells|
    ensures CellsText(cells, c0, c0) == []
  {
  }

  method PushCell(cells: seq<Cell>, ghost c0: nat, col: nat, before: string) returns (text: string)
    requires c0 <= col < |cells| && before == CellsText(cells, c0, col)
    ensures text == CellsText(cells, c0, col + 1)
  {
    CellAppended(cells, c0, col);
    hide CellsText;
    var cell := cells[col];
    text := before;
    if !cell.spacer {
      text := text + [if cell.c == '\0' then ' ' else cell.c];
      text := text + Marks(cell);
    }
  }
}
