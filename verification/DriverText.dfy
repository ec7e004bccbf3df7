/** The sequence counter and the paged reader together: what a sequence range reads as over time. */
module DriverText {
  import opened Common
  import opened GridRows
  import S = Scrollback
  import opened PagedText
  import opened SeqReader

  function RowsOf(lines: seq<S.Line>): seq<Row> {
    seq(|lines|, i requires 0 <= i < |lines| => lines[i].row)
  }

  /** What the readers see of a driver whose primary screen is showing. */
  function ViewOf(d: S.Driver, cols: nat, cursorRow: int, cursorCol: nat): View {
    var g := d.term.primary;
    View(RowsOf(S.Lines(g)), |g.screen|, cols, d.rotated, cursorRow, cursorCol)
  }

  /** The reader's row for a sequence number is the driver's line for it. */
  lemma ReadsTheDriversLine(d: S.Driver, cols: nat, cursorRow: int, cursorCol: nat, s: nat)
    requires !d.term.onAlt && S.OldestSeq(d) <= s < d.rotated + |d.term.primary.screen|
    requires ValidView(ViewOf(d, cols, cursorRow, cursorCol))
    ensures var v := ViewOf(d, cols, cursorRow, cursorCol);
      && OldestSeq(v) == S.OldestSeq(d) && GridEnd(v) == d.rotated + |d.term.primary.screen|
      && RowAt(v, s) == S.SeqLine(d, s).row
  {
  }

  /**
    A sequence range reads exactly the same page, text, cursors and flags, before and after any
    lawful run that leaves its lines alone, however far they have scrolled meanwhile and
    wherever the cursor has gone.
   */
  lemma RangeReadsTheSame(
    d: S.Driver, events: seq<S.Event>, cols: nat, a: nat, col: nat, b: nat, cap: nat,
    cursorRow: int, cursorCol: nat, cursorRow': int, cursorCol': nat)
    requires S.ValidRun(d, events) && S.InStep(d) && S.LawfulThroughout(d, events)
    requires !d.term.onAlt && !S.Run(d, events).term.onAlt
    requires a <= b && cols > 0 && forall s: nat :: a <= s <= b ==> S.LeftAlone(d, events, s)
    requires ValidView(ViewOf(d, cols, cursorRow, cursorCol))
    requires ValidView(ViewOf(S.Run(d, events), cols, cursorRow', cursorCol'))
    ensures SeqPage(ViewOf(d, cols, cursorRow, cursorCol), a, col, Some(b + 1), cap)
         == SeqPage(ViewOf(S.Run(d, events), cols, cursorRow', cursorCol'), a, col, Some(b + 1), cap)
  {
    var d' := S.Run(d, events);
    var v, v' := ViewOf(d, cols, cursorRow, cursorCol), ViewOf(d', cols, cursorRow', cursorCol');
    forall s: nat | a <= s <= b ensures SameAt(v, v', s) {
      S.SequenceNamesSameText(d, events, s);
      ReadsTheDriversLine(d, cols, cursorRow, cursorCol, s);
      ReadsTheDriversLine(d', cols, cursorRow', cursorCol', s);
    }
    S.RunStaysValid(d, events);
    assert v.screen > 0 && v'.screen > 0;
    hide ViewOf, SeqPage;
    SameRowsSamePage(v, v', a, col, b, cap);
  }

  predicate SameAt(v: View, v': View, s: nat)
    requires ValidView(v) && ValidView(v')
  {
    OldestSeq(v) <= s < GridEnd(v) && OldestSeq(v') <= s < GridEnd(v') && RowAt(v, s) == RowAt(v', s)
  }

  lemma SameRowsSamePage(v: View, v': View, a: nat, col: nat, b: nat, cap: nat)
    requires ValidView(v) && ValidView(v') && v.cols == v'.cols > 0 && a <= b && v.screen > 0 && v'.screen > 0
    requires forall s: nat :: a <= s <= b ==> SameAt(v, v', s)
    ensures SeqPage(v, a, col, Some(b + 1), cap) == SeqPage(v', a, col, Some(b + 1), cap)
  {
    hide Pieces, Asked, Fit, Join, RowAt;
    assert SameAt(v, v', a) && SameAt(v, v', b);
    SameAsked(v, v', a, col, b);
  }

  lemma SameAsked(v: View, v': View, a: nat, col: nat, b: nat)
    requires ValidView(v) && ValidView(v') && v.cols == v'.cols > 0 && a <= b && v.screen > 0 && v'.screen > 0
    requires SameAt(v, v', a) && SameAt(v, v', b) && forall s: nat :: a <= s <= b ==> SameAt(v, v', s)
    ensures ReadsRows(v, a, col, Some(b + 1)) && ReadsRows(v', a, col, Some(b + 1))
    ensures Asked(v, a, col, Some(b + 1)) == Asked(v', a, col, Some(b + 1))
  {
    hide Pieces, PieceAt, RowAt;
    assert StartSeq(v, a) == StartSeq(v', a) == a && StartCol(v, a, col) == StartCol(v', a, col) == col;
    assert EndInclusive(v, Some(b + 1)) == EndInclusive(v', Some(b + 1)) == b;
    hide StartSeq, StartCol, EndInclusive;
    SamePieces(v, v', a, col, b);
  }

  lemma SamePieces(v: View, v': View, a: nat, col: nat, b: nat)
    requires ValidView(v) && ValidView(v') && v.cols == v'.cols > 0 && a <= b
    requires SameAt(v, v', a) && SameAt(v, v', b) && forall s: nat :: a <= s <= b ==> SameAt(v, v', s)
    ensures Pieces(v, Pos(v, a), col, Pos(v, b), v.cols - 1) == Pieces(v', Pos(v', a), col, Pos(v', b), v.cols - 1)
  {
    hide RowText, Pieces;
    var ps, ps' := Pieces(v, Pos(v, a), col, Pos(v, b), v.cols - 1),
        Pieces(v', Pos(v', a), col, Pos(v', b), v.cols - 1);
    forall i | 0 <= i < |ps| ensures ps[i] == ps'[i] {
      assert SameAt(v, v', a + i);
      PieceOf(v, Pos(v, a), col, Pos(v, b), v.cols - 1, i);
      PieceOf(v', Pos(v', a), col, Pos(v', b), v.cols - 1, i);
    }
  }
}
