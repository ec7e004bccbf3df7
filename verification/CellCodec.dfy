/** The driver's 12-byte cell encoder, and that the renderer reads back what it wrote. */
module CellCodec {
  import opened Common
  import opened GridRows
  import opened Bytes
  import opened RendererState
  import opened SnapshotFormat
  import opened SnapshotState
  import Utf8

  const FOREGROUND: nat := 256
  const BACKGROUND: nat := 257

  predicate Blank(cell: Cell) { cell.c == '\0' || cell.c == ' ' }

  function Code(c: char): Utf8.Scalar { c as int }

  function Codes(s: string): (r: seq<Utf8.Scalar>)
    ensures |r| == |s|
  {
    seq(|s|, i requires 0 <= i < |s| => Code(s[i]))
  }

  /** The grapheme in UTF-8: the character and its marks. */
  function Grapheme(cell: Cell): seq<Byte> { Utf8.EncodeScalars([Code(cell.c)] + Codes(Marks(cell))) }

  /** What a reader of the screen should see in the cell. */
  function Visible(cell: Cell): seq<Byte> {
    if cell.spacer then [] else if Blank(cell) then [0x20] else Grapheme(cell)
  }

  /** Text too long for the cell goes to the overflow table. */
  predicate Overflows(cell: Cell) { !Blank(cell) && |Grapheme(cell)| > 4 }

  // ---------------------------------------------------------------------------------------
  // The encoder
  // ---------------------------------------------------------------------------------------

  function Bit(on: bool, weight: nat): nat { if on then weight else 0 }

  function Flags1(cell: Cell, linked: bool, len: nat): Byte
    requires len < 8
  {
    Bit(cell.style.inverse, 1) + Bit(cell.wide, 2) + Bit(cell.spacer, 4) + 8 * len + Bit(linked, 64)
  }

  function FnvStep(h: bv32, b: Byte): bv32 { (h ^ (b as bv32)) * 0x0100_0193 }

  function Fnv(data: seq<Byte>): bv32 {
    if data == [] then 0x811c_9dc5 else FnvStep(Fnv(data[..|data| - 1]), data[|data| - 1])
  }

  method Fnv1a32(data: seq<Byte>) returns (h: bv32)
    ensures h == Fnv(data)
  {
    hide FnvStep;
    h := 0x811c_9dc5;
    var i := 0;
    while i < |data|
      invariant 0 <= i <= |data| && h == Fnv(data[..i])
    {
      assert data[..i + 1][..i] == data[..i];
      h := FnvStep(h, data[i]);
      i := i + 1;
    }
    assert data[..i] == data;
  }

  function HashBytes(data: seq<Byte>): (b: seq<Byte>)
    ensures |b| == 4
  {
    U32(Fnv(data) as int)
  }

  function Padded(bytes: seq<Byte>): (b: seq<Byte>)
    requires |bytes| <= 4
    ensures |b| == 4 && b[..|bytes|] == bytes
  {
    bytes + seq(4 - |bytes|, _ => 0)
  }

  function LenField(cell: Cell): (len: nat)
    ensures len < 8
  {
    if Blank(cell) then 0 else if |Grapheme(cell)| <= 4 then |Grapheme(cell)| else CONTENT_OVERFLOW
  }

  function ContentBytes(cell: Cell): (b: seq<Byte>)
    ensures |b| == 4
  {
    if Blank(cell) then Padded([])
    else if |Grapheme(cell)| <= 4 then Padded(Grapheme(cell))
    else HashBytes(Grapheme(cell))
  }

  /** The kind of a colour; a plane's own default is not spelled out. */
  function ColourKind(c: Color, own: nat): (kind: nat)
    ensures kind < 3
  {
    match c case Named(n) => (if n == own then 0 else 1) case Indexed(_) => 1 case Rgb(_, _, _) => 2
  }

  /** The three bytes of a colour.  A role's number is cut to eight bits. */
  function ColourBytes(c: Color, own: nat): (b: seq<Byte>)
    ensures |b| == 3
  {
    match c
    case Named(n) => (if n == own then [0, 0, 0] else [n % 256, 0, 0])
    case Indexed(i) => [i, 0, 0]
    case Rgb(r, g, b) => [r, g, b]
  }

  /** A default foreground leaves its three bytes as they were. */
  function FgBytes(c: Color, before: seq<Byte>): (b: seq<Byte>)
    requires |before| == 3
    ensures |b| == 3
  {
    if c == Named(FOREGROUND) then before else ColourBytes(c, FOREGROUND)
  }

  function Flags0(s: Style): Byte {
    ColourKind(s.fg, FOREGROUND) + 4 * ColourKind(s.bg, BACKGROUND)
    + Bit(s.bold, 16) + Bit(s.dim, 32) + Bit(s.italic, 64) + Bit(s.underline, 128)
  }

  /** The twelve bytes of a cell; `before` is what its foreground bytes held. */
  function CellBytes(cell: Cell, linked: bool, before: seq<Byte>): (b: seq<Byte>)
    requires |before| == 3
    ensures |b| == CELL_SIZE
  {
    [Flags0(cell.style), Flags1(cell, linked, LenField(cell))]
    + FgBytes(cell.style.fg, before) + ColourBytes(cell.style.bg, BACKGROUND) + ContentBytes(cell)
  }

  function Splice(s: seq<Byte>, at: nat, piece: seq<Byte>): (r: seq<Byte>)
    requires at + |piece| <= |s|
    ensures |r| == |s|
  {
    s[..at] + piece + s[at + |piece|..]
  }

  method Write(buf: array<Byte>, at: nat, piece: seq<Byte>)
    requires at + |piece| <= buf.Length
    modifies buf
    ensures buf[..] == Splice(old(buf[..]), at, piece)
  {
    var k := 0;
    while k < |piece|
      invariant 0 <= k <= |piece|
      invariant forall j :: 0 <= j < buf.Length ==>
        buf[j] == if at <= j < at + k then piece[j - at] else old(buf[j])
    {
      buf[at + k] := piece[k];
      k := k + 1;
    }
    assert buf[..] == Splice(old(buf[..]), at, piece);
  }

  lemma Alone(cell: Cell)
    requires Marks(cell) == []
    ensures Grapheme(cell) == Utf8.EncodeScalar(Code(cell.c))
  {
    hide Utf8.EncodeScalar;
    var c := Code(cell.c);
    assert [c] + Codes(Marks(cell)) == [c] && [c][1..] == [];
    assert Utf8.EncodeScalars([]) == [];
  }

  method PushMarks(c: Utf8.Scalar, marks: seq<Utf8.Scalar>) returns (full: seq<Byte>)
    ensures full == Utf8.EncodeScalars([c] + marks)
  {
    hide Utf8.EncodeScalar;
    full := Utf8.EncodeScalar(c);
    var i := 0;
    assert [c] + marks[..0] == [c] && [c][1..] == [];
    assert Utf8.EncodeScalars([]) == [];
    while i < |marks|
      invariant 0 <= i <= |marks| && full == Utf8.EncodeScalars([c] + marks[..i])
    {
      assert [c] + marks[..i + 1] == ([c] + marks[..i]) + [marks[i]];
      Utf8.EncodeAppend([c] + marks[..i], marks[i]);
      full := full + Utf8.EncodeScalar(marks[i]);
      i := i + 1;
    }
    assert marks[..i] == marks;
  }

  lemma Ascii(c: Utf8.Scalar)
    requires c <= 0x7F
    ensures Utf8.EncodeScalar(c) == [c]
  {
  }

  /** The four content bytes and the length field, through the encoder's fast paths. */
  method EncodeContent(cell: Cell, flat: nat, overflow: map<nat, seq<Byte>>)
    returns (len: nat, content: seq<Byte>, overflow': map<nat, seq<Byte>>)
    ensures len == LenField(cell) && content == ContentBytes(cell)
    ensures overflow' == if Overflows(cell) then overflow[flat := Grapheme(cell)] else overflow
  {
    hide Utf8.EncodeScalars, Utf8.EncodeScalar, Fnv;
    overflow' := overflow;
    var c := Code(cell.c);
    if cell.c <= '\U{7f}' && cell.c > ' ' && cell.extra.None? {
      Alone(cell);
      Ascii(c);
      len, content := 1, [c, 0, 0, 0];
    } else if cell.c == '\0' || cell.c == ' ' {
      len, content := 0, [0, 0, 0, 0];
    } else if cell.extra.Some? {
      var full := PushMarks(c, Codes(cell.extra.value.zerowidth));
      if |full| <= 4 {
        len, content := |full|, Padded(full);
      } else {
        var hash := Fnv1a32(full);
        len, content := CONTENT_OVERFLOW, U32(hash as int);
        overflow' := overflow[flat := full];
      }
    } else {
      Alone(cell);
      var s := Utf8.EncodeScalar(c);
      len, content := |s|, Padded(s);
    }
  }

  method EncodeForeground(c: Color, before: seq<Byte>) returns (kind: nat, bytes: seq<Byte>)
    requires |before| == 3
    ensures kind == ColourKind(c, FOREGROUND) && bytes == FgBytes(c, before)
  {
    kind, bytes := 0, before;
    match c {
      case Named(n) =>
        if n != FOREGROUND {
          kind, bytes := 1, [n % 256, 0, 0];
        }
      case Indexed(i) => kind, bytes := 1, [i, 0, 0];
      case Rgb(r, g, b) => kind, bytes := 2, [r, g, b];
    }
  }

  method EncodeBackground(c: Color) returns (kind: nat, bytes: seq<Byte>)
    ensures kind == ColourKind(c, BACKGROUND) && bytes == ColourBytes(c, BACKGROUND)
  {
    match c {
      case Named(n) =>
        if n == BACKGROUND {
          kind, bytes := 0, [0, 0, 0];
        } else {
          kind, bytes := 1, [n % 256, 0, 0];
        }
      case Indexed(i) => kind, bytes := 1, [i, 0, 0];
      case Rgb(r, g, b) => kind, bytes := 2, [r, g, b];
    }
  }

  method EncodeCell(cell: Cell, buf: array<Byte>, flat: nat, overflow: map<nat, seq<Byte>>, linked: bool)
    returns (overflow': map<nat, seq<Byte>>)
    requires (flat + 1) * CELL_SIZE <= buf.Length
    modifies buf
    ensures var at := flat * CELL_SIZE;
      buf[..] == Splice(old(buf[..]), at, CellBytes(cell, linked, old(buf[at + 2..at + 5])))
    ensures overflow' == if Overflows(cell) then overflow[flat := Grapheme(cell)] else overflow
  {
    hide LenField, ContentBytes, Flags1, Overflows, Grapheme;
    var at, st := flat * CELL_SIZE, cell.style;
    var fgKind, fg := EncodeForeground(st.fg, buf[at + 2..at + 5]);
    var bgKind, bg := EncodeBackground(st.bg);
    var f0 := fgKind + 4 * bgKind + Bit(st.bold, 16) + Bit(st.dim, 32) + Bit(st.italic, 64) + Bit(st.underline, 128);
    hide ColourKind, ColourBytes, FgBytes;
    var len, content;
    len, content, overflow' := EncodeContent(cell, flat, overflow);
    Write(buf, at, [f0, Flags1(cell, linked, len)] + fg + bg + content);
  }

  // ---------------------------------------------------------------------------------------
  // Reading it back
  // ---------------------------------------------------------------------------------------

  lemma FlagsReadBack(cell: Cell, linked: bool, len: nat)
    requires len < 8
    ensures var f := Flags1(cell, linked, len);
      && IsSpacer(f) == cell.spacer && ContentLen(f) == len
      && (f / 64 % 2 == 1 <==> linked) && (f % 2 == 1 <==> cell.style.inverse) && (f / 2 % 2 == 1 <==> cell.wide)
  {
  }

  lemma GraphemeIsText(cell: Cell)
    ensures IsUtf8(Grapheme(cell)) && |Grapheme(cell)| > 0
  {
    Utf8.DecodeEncode([Code(cell.c)] + Codes(Marks(cell)));
    hide Utf8.EncodeScalar;
  }

  /** Cell `i` of the state is what the encoder writes for `cell`. */
  predicate Holds(s: State, i: nat, cell: Cell, linked: bool)
    requires Sized(s) && i < s.rows * s.cols
  {
    && s.cells[i * CELL_SIZE..(i + 1) * CELL_SIZE] == CellBytes(cell, linked, [0, 0, 0])
    && (Overflows(cell) ==> i in s.overflow && s.overflow[i] == Grapheme(cell))
  }

  lemma HeldFlags(s: State, i: nat, cell: Cell, linked: bool)
    requires Sized(s) && i < s.rows * s.cols && Holds(s, i, cell, linked)
    ensures CellFlags(s, i) == Flags1(cell, linked, LenField(cell))
    ensures s.cells[i * CELL_SIZE + 8..i * CELL_SIZE + 12] == ContentBytes(cell)
  {
    hide LenField, ContentBytes, Flags1, Overflows, Grapheme;
    var bytes := s.cells[i * CELL_SIZE..(i + 1) * CELL_SIZE];
    assert bytes[1] == s.cells[i * CELL_SIZE + 1];
    SliceOfSlice(s.cells, i * CELL_SIZE, (i + 1) * CELL_SIZE, 8, 12);
  }

  /**
    The renderer sees the cell's text, whatever the character and its marks: nothing for the
    right half of a wide glyph, one space for a blank, else the whole grapheme.
   */
  lemma CellRoundTrip(s: State, row: nat, col: nat, cell: Cell, linked: bool)
    requires Sized(s) && row < s.rows && col < s.cols && Holds(s, CellIndex(s, row, col), cell, linked)
    ensures CellContent(s, row, col) == Text(Visible(cell))
  {
    hide CellIndex, CellFlags, Flags1, IsSpacer, ContentLen, IsUtf8, Grapheme, CellBytes, HashBytes, Padded;
    var i := CellIndex(s, row, col);
    HeldFlags(s, i, cell, linked);
    FlagsReadBack(cell, linked, LenField(cell));
    GraphemeIsText(cell);
    if !cell.spacer && !Blank(cell) && |Grapheme(cell)| <= 4 {
      var at := i * CELL_SIZE + 8;
      SliceOfSlice(s.cells, at, at + 4, 0, |Grapheme(cell)|);
    }
  }

  // ---------------------------------------------------------------------------------------
  // Colours and attributes
  // ---------------------------------------------------------------------------------------

  datatype Shade = Default | Palette(i: Byte) | TrueColour(r: Byte, g: Byte, b: Byte)

  datatype CellStyle = CellStyle(
    fg: Shade, bg: Shade, bold: bool, dim: bool, italic: bool, underline: bool, inverse: bool)

  function ReadShade(kind: nat, b: seq<Byte>): Shade
    requires |b| == 3
  {
    if kind == 1 then Palette(b[0]) else if kind == 2 then TrueColour(b[0], b[1], b[2]) else Default
  }

  /** `cell_style`: what is read from a cell's twelve bytes. */
  function ReadStyle(cell: seq<Byte>): CellStyle
    requires |cell| == CELL_SIZE
  {
    var f0: int, f1: int := cell[0], cell[1];
    CellStyle(ReadShade(f0 % 4, cell[2..5]), ReadShade(f0 / 4 % 4, cell[5..8]),
              f0 / 16 % 2 == 1, f0 / 32 % 2 == 1, f0 / 64 % 2 == 1, f0 / 128 % 2 == 1, f1 % 2 == 1)
  }

  /** What a colour looks like on a plane whose own default is `own`. */
  function Shown(c: Color, own: nat): Shade {
    match c
    case Named(n) => if n == own then Default else Palette(n % 256)
    case Indexed(i) => Palette(i)
    case Rgb(r, g, b) => TrueColour(r, g, b)
  }

  function ShownStyle(s: Style): CellStyle {
    CellStyle(Shown(s.fg, FOREGROUND), Shown(s.bg, BACKGROUND), s.bold, s.dim, s.italic, s.underline, s.inverse)
  }

  lemma Quarters(x: nat, y: nat)
    requires x < 4
    ensures (x + 4 * y) % 4 == x && (x + 4 * y) / 4 == y
  {
  }

  lemma Flags0ReadBack(s: Style)
    ensures var f: int := Flags0(s);
      && f % 4 == ColourKind(s.fg, FOREGROUND) && f / 4 % 4 == ColourKind(s.bg, BACKGROUND)
      && (f / 16 % 2 == 1 <==> s.bold) && (f / 32 % 2 == 1 <==> s.dim)
      && (f / 64 % 2 == 1 <==> s.italic) && (f / 128 % 2 == 1 <==> s.underline)
  {
    var f: int := Flags0(s);
    var u := Bit(s.underline, 1);
    var i := Bit(s.italic, 1) + 2 * u;
    var d := Bit(s.dim, 1) + 2 * i;
    var b := Bit(s.bold, 1) + 2 * d;
    var kinds := ColourKind(s.fg, FOREGROUND) + 4 * ColourKind(s.bg, BACKGROUND);
    hide ColourKind;
    assert f == kinds + 16 * b;
    hide Flags0;
    Quarters(ColourKind(s.fg, FOREGROUND), ColourKind(s.bg, BACKGROUND) + 4 * b);
    Quarters(ColourKind(s.bg, BACKGROUND), b);
    assert f / 4 / 4 == b && f / 16 == b;
    Halves(b, s.bold, d);
    Halves(d, s.dim, i);
    Halves(i, s.italic, u);
  }

  lemma Halves(n: nat, on: bool, rest: nat)
    requires n == Bit(on, 1) + 2 * rest
    ensures n / 2 == rest && (n % 2 == 1 <==> on)
  {
  }

  lemma FgIsColour(c: Color, before: seq<Byte>)
    requires |before| == 3
    ensures FgBytes(c, before) == ColourBytes(c, FOREGROUND) || ColourKind(c, FOREGROUND) == 0
  {
  }

  lemma ShadeReadsBack(c: Color, own: nat, b: seq<Byte>)
    requires |b| == 3
    ensures b == ColourBytes(c, own) || ColourKind(c, own) == 0 ==> ReadShade(ColourKind(c, own), b) == Shown(c, own)
  {
  }

  /** Every attribute and both colours are read back, whatever the foreground bytes held before. */
  lemma StyleReadsBack(cell: Cell, linked: bool, before: seq<Byte>)
    requires |before| == 3
    ensures ReadStyle(CellBytes(cell, linked, before)) == ShownStyle(cell.style)
  {
    hide Flags0, Flags1, LenField, ContentBytes, ColourKind, FgBytes, ColourBytes, ReadShade, IsSpacer, ContentLen;
    var s, bytes := cell.style, CellBytes(cell, linked, before);
    Flags0ReadBack(s);
    FlagsReadBack(cell, linked, LenField(cell));
    ShadeReadsBack(s.fg, FOREGROUND, FgBytes(s.fg, before));
    ShadeReadsBack(s.bg, BACKGROUND, ColourBytes(s.bg, BACKGROUND));
    FgIsColour(s.fg, before);
    assert bytes[2..5] == FgBytes(s.fg, before) && bytes[5..8] == ColourBytes(s.bg, BACKGROUND);
  }

  /** What a named colour stands for: a palette entry, or a role that only its own plane can show. */
  predicate StandsFor(n: nat, own: nat, shade: Shade) {
    if n < 256 then shade == Palette(n) else n == own && shade == Default
  }

  /** A named colour is shown as what it stands for exactly when it is no other plane's role. */
  lemma NamedColourShown(n: nat, own: nat)
    requires own >= 256
    ensures StandsFor(n, own, Shown(Named(n), own)) <==> n < 256 || n == own
    ensures n >= 256 && n != own ==> Shown(Named(n), own) == Shown(Indexed(n % 256), own)
  {
  }

  // ---------------------------------------------------------------------------------------
  // Frames and text readers
  // ---------------------------------------------------------------------------------------

  /** A cell on a frame and in read text is the same, except for marks on a blank. */
  lemma FrameAndTextAgree(cell: Cell)
    ensures Utf8.EncodeScalars(Codes(CellText(cell))) == Visible(cell)
       <==> cell.spacer || !Blank(cell) || Marks(cell) == []
  {
    var marks := Marks(cell);
    if !cell.spacer {
      var c := if cell.c == '\0' then ' ' else cell.c;
      assert Codes(CellText(cell)) == [Code(c)] + Codes(marks);
      assert ([Code(c)] + Codes(marks))[1..] == Codes(marks);
      assert Utf8.EncodeScalars([Code(c)] + Codes(marks)) ==
          Utf8.EncodeScalar(Code(c)) + Utf8.EncodeScalars(Codes(marks));
      hide Utf8.EncodeScalar;
      Ascii(Code(' '));
      assert Utf8.EncodeScalars(Codes(marks)) == [] <==> marks == [];
    }
  }

  lemma {:induction false} BytesToIsUtf8(s: string, n: nat)
    requires n <= |s|
    ensures BytesTo(s, n) == |Utf8.EncodeScalars(Codes(s)[..n])|
    decreases n
  {
    hide Utf8.EncodeScalars;
    if n == 0 {
      NothingEncoded(Codes(s)[..0]);
    } else {
      BytesToIsUtf8(s, n - 1);
      assert Codes(s)[..n] == Codes(s)[..n - 1] + [Code(s[n - 1])];
      Utf8.EncodeAppend(Codes(s)[..n - 1], Code(s[n - 1]));
      CharBytesIsWidth(s[n - 1]);
    }
  }

  lemma NothingEncoded(cps: seq<Utf8.Scalar>)
    requires cps == []
    ensures Utf8.EncodeScalars(cps) == []
  {
  }

  lemma CharBytesIsWidth(c: char)
    ensures CharBytes(c) == |Utf8.EncodeScalar(Code(c))|
  {
  }

  /** The unit of the readers' byte caps is the length in UTF-8. */
  lemma ByteLenIsUtf8(s: string)
    ensures ByteLen(s) == |Utf8.EncodeScalars(Codes(s))|
  {
    BytesToIsUtf8(s, |s|);
    assert Codes(s)[..|s|] == Codes(s);
  }

  // ---------------------------------------------------------------------------------------
  // In numbers
  // ---------------------------------------------------------------------------------------

  /** Colour kind and bytes, for a plane whose default is the role `own`. */
  predicate ColourStands(c: Color, own: nat, kind: int, b: seq<Byte>, unset: seq<Byte>) {
    match c
    case Named(n) => if n == own then kind == 0 && b == unset else kind == 1 && b == [n % 256, 0, 0]
    case Indexed(i) => kind == 1 && b == [i, 0, 0]
    case Rgb(red, green, blue) => kind == 2 && b == [red, green, blue]
  }

  /**
    The twelve bytes: colour kinds and attributes in byte 0, flags and length in byte 1, then the
    foreground (default role 256), the background (default role 257) and four bytes of text.
   */
  lemma CellLayout(cell: Cell, linked: bool, before: seq<Byte>)
    requires |before| == 3
    ensures var b, s := CellBytes(cell, linked, before), cell.style;
      var f0: int, f1: int := b[0], b[1];
      && ColourStands(s.fg, 256, f0 % 4, b[2..5], before) && ColourStands(s.bg, 257, f0 / 4 % 4, b[5..8], [0, 0, 0])
      && (f0 / 16 % 2 == 1 <==> s.bold) && (f0 / 32 % 2 == 1 <==> s.dim)
      && (f0 / 64 % 2 == 1 <==> s.italic) && (f0 / 128 % 2 == 1 <==> s.underline)
      && (f1 % 2 == 1 <==> s.inverse) && (f1 / 2 % 2 == 1 <==> cell.wide) && (f1 / 4 % 2 == 1 <==> cell.spacer)
      && (f1 / 64 % 2 == 1 <==> linked) && f1 < 128 && f1 / 8 % 8 == LenField(cell) && b[8..12] == ContentBytes(cell)
  {
    hide Flags0, Flags1, LenField, ContentBytes, FgBytes, ColourBytes, ColourKind;
    var s, b := cell.style, CellBytes(cell, linked, before);
    Flags0ReadBack(s);
    FlagsReadBack(cell, linked, LenField(cell));
    SmallFlags(cell, linked, LenField(cell));
    assert b[2..5] == FgBytes(s.fg, before) && b[5..8] == ColourBytes(s.bg, BACKGROUND);
    assert b[8..12] == ContentBytes(cell);
    ColoursStand(s.fg, s.bg, before);
  }

  lemma SmallFlags(cell: Cell, linked: bool, len: nat)
    requires len < 8
    ensures Flags1(cell, linked, len) < 128
  {
  }

  lemma ColoursStand(fg: Color, bg: Color, before: seq<Byte>)
    requires |before| == 3
    ensures ColourStands(fg, 256, ColourKind(fg, FOREGROUND), FgBytes(fg, before), before)
    ensures ColourStands(bg, 257, ColourKind(bg, BACKGROUND), ColourBytes(bg, BACKGROUND), [0, 0, 0])
  {
  }

  /** The text of a cell: none for a blank, up to four bytes in place, else a 7 and a hash of it. */
  lemma ContentLayout(cell: Cell)
    ensures var text, content := Grapheme(cell), ContentBytes(cell);
      if cell.c == ' ' || cell.c == '\0' then LenField(cell) == 0 && content == [0, 0, 0, 0]
      else if |text| <= 4 then
        && LenField(cell) == |text| && content[..|text|] == text
        && forall i :: |text| <= i < 4 ==> content[i] == 0
      else LenField(cell) == 7 && content == Le(Fnv(text) as int, 4)
  {
    hide Grapheme, Fnv, U32, Le;
    LittleEndian(Fnv(Grapheme(cell)) as int);
  }

  lemma FnvAppend(data: seq<Byte>, b: Byte)
    ensures Fnv(data + [b]) == FnvStep(Fnv(data), b)
  {
    hide FnvStep;
    assert (data + [b])[..|data|] == data;
  }

  /** The published values of the 32-bit FNV-1a hash of nothing, "a", "f" and "fo". */
  lemma FnvVectors()
    ensures Fnv([]) == 0x811c_9dc5 && Fnv([0x61]) == 0xe40c_292c
    ensures Fnv([0x66]) == 0xe30c_2799 && Fnv([0x66, 0x6F]) == 0x6222_e842
  {
    hide FnvStep;
    StepVectors();
    FnvAppend([], 0x61);
    FnvAppend([], 0x66);
    FnvAppend([0x66], 0x6F);
    assert [] + [0x61] == [0x61] && [] + [0x66] == [0x66] && [0x66] + [0x6F] == [0x66, 0x6F];
  }

  lemma StepVectors()
    ensures FnvStep(0x811c_9dc5, 0x61) == 0xe40c_292c
    ensures FnvStep(0x811c_9dc5, 0x66) == 0xe30c_2799 && FnvStep(0xe30c_2799, 0x6F) == 0x6222_e842
  {
  }
}
