/** The browser renderer's terminal state and the pure reads on it. */
module RendererState {
  import opened Common
  import opened Bytes

  const CELL_SIZE: nat := 12
  const MAX_CELL_COUNT: nat := 500_000
  const CONTENT_OVERFLOW: nat := 7

  /** Strings are held as their UTF-8 bytes. */
  datatype State = State(
    rows: nat, cols: nat, cursorRow: nat, cursorCol: nat, mode: nat, keyboardFlags: nat,
    title: seq<Byte>, cells: seq<Byte>, overflow: map<nat, seq<Byte>>, lineFlags: seq<Byte>,
    scrollbackLines: nat, cellLinks: seq<nat>, linkUris: map<nat, seq<Byte>>)

  /** The cell buffer has its size, which is what every read below relies on. */
  predicate Sized(s: State) { |s.cells| == s.rows * s.cols * CELL_SIZE }

  function NewState(rows: nat, cols: nat): (s: State)
    ensures Sized(s)
  {
    State(rows, cols, 0, 0, 0, 0, [], seq(rows * cols * CELL_SIZE, _ => 0), map[], seq(rows, _ => 0), 0, [], map[])
  }

  predicate IsWrapped(s: State, row: nat) { row < |s.lineFlags| && s.lineFlags[row] % 2 == 1 }

  lemma CellInBounds(rows: nat, cols: nat, row: nat, col: nat)
    requires row < rows && col < cols
    ensures row * cols + col < rows * cols
  {
    assert (row + 1) * cols <= rows * cols by {
      assert rows * cols == (row + 1) * cols + (rows - row - 1) * cols;
    }
  }

  function CellIndex(s: State, row: nat, col: nat): (i: nat)
    requires row < s.rows && col < s.cols
    ensures i < s.rows * s.cols
  {
    CellInBounds(s.rows, s.cols, row, col);
    row * s.cols + col
  }

  /** The second flag byte of a cell: wide spacer in bit 2, content length in bits 3 to 5. */
  function CellFlags(s: State, i: nat): Byte
    requires Sized(s) && i < s.rows * s.cols
  {
    s.cells[i * CELL_SIZE + 1]
  }

  predicate IsSpacer(flags: Byte) { flags / 4 % 2 == 1 }

  function ContentLen(flags: Byte): nat { flags / 8 % 8 }

  /** Where a cell's link id is stored; the right half of a wide glyph borrows its left half's. */
  function LinkIndex(s: State, row: nat, col: nat): Option<nat>
    requires Sized(s)
  {
    if row >= s.rows || col >= s.cols || s.cellLinks == [] then None
    else
      var i := CellIndex(s, row, col);
      Some(if IsSpacer(CellFlags(s, i)) && col > 0 then i - 1 else i)
  }

  function LinkId(s: State, row: nat, col: nat): nat
    requires Sized(s)
  {
    match LinkIndex(s, row, col)
    case None => 0
    case Some(i) => if i < |s.cellLinks| then s.cellLinks[i] else 0
  }

  function CellLink(s: State, row: nat, col: nat): Option<seq<Byte>>
    requires Sized(s)
  {
    var id := LinkId(s, row, col);
    if id != 0 && id in s.linkUris then Some(s.linkUris[id]) else None
  }
}
