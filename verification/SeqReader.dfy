/**
  The two text readers of the terminal grid: `seq_text`, which pages through absolute sequence
  numbers under a byte cap, and `get_text_range`, which addresses rows from the bottom.
*/
module SeqReader {
  import opened Common
  import opened GridRows
  import opened PagedText

  /** What the readers see of the driver: rows (history first), geometry, counter and cursor. */
  datatype View = View(rows: seq<Row>, screen: nat, cols: nat, rotated: nat, cursorRow: int, cursorCol: nat)

  /** A sequence-addressed read and the cursor to resume from. */
  datatype Page = Page(text: string, startSeq: nat, startCol: nat,
      nextSeq: nat, nextCol: nat, truncated: bool, evicted: bool)

  predicate ValidView(v: View) {
    && v.screen <= |v.rows|
    && (forall i :: 0 <= i < |v.rows| ==> |v.rows[i].cells| == v.cols)
    && (v.screen > 0 ==> v.cursorRow < v.screen)
  }

  /** Lines above the viewport. */
  function History(v: View): nat { Monus(|v.rows|, v.screen) }

  function CursorSeq(v: View): nat { v.rotated + Max(v.cursorRow, 0) }

  function OldestSeq(v: View): nat { Monus(v.rotated, History(v)) }

  /** One past the last sequence of the grid. */
  function GridEnd(v: View): nat { v.rotated + v.screen }

  /** Where the row with a sequence number is stored. */
  function Pos(v: View, s: nat): int { s - v.rotated + History(v) }

  function PieceAt(v: View, p: nat, c: nat, q: nat, c1: nat, i: nat): Piece
    requires v.cols > 0 && p + i <= q < |v.rows|
  {
    var row := v.rows[p + i];
    Piece(RowText(row,
                  if i == 0 then Min(c, v.cols - 1) else 0,
                  if p + i == q then Min(c1, v.cols - 1) else v.cols - 1),
          row.wrapped)
  }

  /** Stored rows `p` to `q`, the first from column `c`, the last up to column `c1`. */
  function Pieces(v: View, p: nat, c: nat, q: nat, c1: nat): (ps: seq<Piece>)
    requires ValidView(v) && v.cols > 0 && p <= q < |v.rows|
    ensures |ps| == q + 1 - p
  {
    seq(q + 1 - p, i requires 0 <= i < q + 1 - p => PieceAt(v, p, c, q, c1, i))
  }

  lemma PieceOf(v: View, p: nat, c: nat, q: nat, c1: nat, i: nat)
    requires ValidView(v) && v.cols > 0 && p + i <= q < |v.rows|
    ensures Pieces(v, p, c, q, c1)[i] == PieceAt(v, p, c, q, c1, i)
  {
    hide PieceAt;
  }

  // ---------------------------------------------------------------------------------------
  // seq_text
  // ---------------------------------------------------------------------------------------

  function EndInclusive(v: View, end: Option<nat>): nat
    requires v.screen > 0
  {
    match end
    case Some(e) => Min(Monus(e, 1), GridEnd(v) - 1)
    case None => Min(CursorSeq(v), GridEnd(v) - 1)
  }

  function DoneSeq(v: View, end: Option<nat>): nat {
    match end case Some(e) => Min(e, GridEnd(v)) case None => CursorSeq(v)
  }

  function DoneCol(v: View, end: Option<nat>): nat {
    if end.Some? then 0 else v.cursorCol
  }

  predicate Evicted(v: View, from: nat) { from < OldestSeq(v) }

  function StartSeq(v: View, from: nat): nat { Max(from, OldestSeq(v)) }

  function StartCol(v: View, from: nat, col: nat): nat { if Evicted(v, from) then 0 else col }

  predicate After(s: nat, c: nat, s': nat, c': nat) { s > s' || (s == s' && c > c') }

  /** Whether a read reaches any row at all. */
  predicate ReadsRows(v: View, from: nat, col: nat, end: Option<nat>) {
    && v.screen > 0 && v.cols > 0
    && !After(StartSeq(v, from), StartCol(v, from, col), DoneSeq(v, end), DoneCol(v, end))
    && StartSeq(v, from) <= EndInclusive(v, end)
  }

  /** The rows a read asks for: from the clamped start to the end of the range. */
  function Asked(v: View, from: nat, col: nat, end: Option<nat>): seq<Piece>
    requires ValidView(v) && ReadsRows(v, from, col, end)
  {
    Pieces(v, Pos(v, StartSeq(v, from)), StartCol(v, from, col), Pos(v, EndInclusive(v, end)), v.cols - 1)
  }

  /** What `seq_text` answers. */
  function SeqPage(v: View, from: nat, col: nat, end: Option<nat>, cap: nat): Page
    requires ValidView(v)
  {
    var a, c := StartSeq(v, from), StartCol(v, from, col);
    var ds, dc := DoneSeq(v, end), DoneCol(v, end);
    if v.screen == 0 || v.cols == 0 then Page([], from, col, CursorSeq(v), v.cursorCol, false, false)
    else if After(a, c, ds, dc) then Page([], ds, dc, ds, dc, false, Evicted(v, from))
    else if a > EndInclusive(v, end) then Page([], a, c, ds, dc, false, Evicted(v, from))
    else
      var ps := Asked(v, from, col, end);
      var n := Fit(ps, 1, cap);
      if n < |ps| then Page(Join(ps, n), a, c, a + n, 0, true, Evicted(v, from))
      else Page(Join(ps, n), a, c, ds, dc, false, Evicted(v, from))
  }

  /** The answer before any row is read: the clamped start, and where the range ends. */
  function EmptyPage(v: View, from: nat, col: nat, end: Option<nat>): Page {
    Page([], StartSeq(v, from), StartCol(v, from, col), DoneSeq(v, end), DoneCol(v, end), false, Evicted(v, from))
  }

  /** The cursors of an answer, before any row is read. */
  method StartPage(v: View, from: nat, col: nat, end: Option<nat>) returns (out: Page, endInclusive: nat)
    requires v.screen > 0
    ensures out == EmptyPage(v, from, col, end) && endInclusive == EndInclusive(v, end)
  {
    var cursorSeq, oldest := CursorSeq(v), OldestSeq(v);
    out := Page([], from, col, cursorSeq, v.cursorCol, false, false);
    var lastSeq := v.rotated + v.screen - 1;
    endInclusive := match end case Some(e) => Min(Monus(e, 1), lastSeq) case None => Min(cursorSeq, lastSeq);
    match end {
      case Some(e) => out := out.(nextSeq := Min(e, lastSeq + 1), nextCol := 0);
      case None => out := out.(nextSeq := cursorSeq, nextCol := v.cursorCol);
    }
    var start := from;
    if start < oldest {
      start := oldest;
      out := out.(startCol := 0, evicted := true);
    }
    out := out.(startSeq := start);
  }

  method SeqText(v: View, from: nat, col: nat, end: Option<nat>, maxBytes: nat) returns (out: Page)
    requires ValidView(v)
    ensures out == SeqPage(v, from, col, end, maxBytes)
  {
    hide RowText, Pieces, PieceAt, Join, Fit, JoinLen;
    var screen, cols := v.screen, v.cols;
    if screen == 0 || cols == 0 {
      return Page([], from, col, CursorSeq(v), v.cursorCol, false, false);
    }
    var endInclusive;
    out, endInclusive := StartPage(v, from, col, end);
    var start := out.startSeq;
    if start > out.nextSeq || (start == out.nextSeq && out.startCol > out.nextCol) {
      out := out.(startSeq := out.nextSeq, startCol := out.nextCol);
      return;
    }
    if start > endInclusive {
      return;
    }
    StoredRange(v, from, end);
    hide ValidView, StartSeq, StartCol, DoneSeq, DoneCol, EndInclusive, Evicted;
    var text, n := ReadRows(v, Pos(v, start), out.startCol, Pos(v, endInclusive), maxBytes);
    out := out.(text := text);
    if start + n <= endInclusive {
      out := out.(truncated := true, nextSeq := start + n, nextCol := 0);
    }
  }

  lemma StoredRange(v: View, from: nat, end: Option<nat>)
    requires ValidView(v) && v.screen > 0
    ensures 0 <= Pos(v, StartSeq(v, from)) && Pos(v, EndInclusive(v, end)) < |v.rows|
  {
  }

  /** One round of the row loop: append the row unless it is not the first and does not fit. */
  method AppendRow(
      text: string, first: bool, prevWrapped: bool, row: string, maxBytes: nat, ghost ps: seq<Piece>,
      ghost n: nat)
    returns (fits: bool, text': string)
    requires n < |ps| && text == Join(ps, n) && row == ps[n].text
    requires first <==> n == 0
    requires !first ==> prevWrapped == ps[n - 1].wrapped
    ensures fits ==> text' == Join(ps, n + 1) && (!first ==> Fit(ps, n, maxBytes) == Fit(ps, n + 1, maxBytes))
    ensures !fits ==> !first && text' == text && Fit(ps, n, maxBytes) == n
  {
    hide ByteLen, Join, Fit;
    RowAppended(ps, n);
    if !first {
      FitStep(ps, n, maxBytes);
    }
    var sep := if !first && !prevWrapped then 1 else 0;
    if !first && ByteLen(text) + sep + ByteLen(row) > maxBytes {
      return false, text;
    }
    text' := text;
    if sep == 1 {
      text' := text' + ['\n'];
    }
    text' := text' + row;
    fits := true;
  }

  /** The row loop of `SeqText`: stored rows from `p` on, until the cap or the end of the range. */
  method ReadRows(v: View, p: nat, startCol: nat, q: nat, maxBytes: nat) returns (text: string, n: nat)
    requires ValidView(v) && v.cols > 0 && p <= q < |v.rows|
    ensures n == Fit(Pieces(v, p, startCol, q, v.cols - 1), 1, maxBytes)
    ensures text == Join(Pieces(v, p, startCol, q, v.cols - 1), n)
  {
    hide RowText, Pieces, Join, Fit;
    ghost var ps := Pieces(v, p, startCol, q, v.cols - 1);
    RowAppended(ps, 0);
    FitAll(ps, maxBytes);
    text, n := [], 0;
    var prevWrapped := false;
    while n <= q - p
      invariant 0 <= n <= |ps|
      invariant text == Join(ps, n)
      invariant n > 0 ==> prevWrapped == ps[n - 1].wrapped && Fit(ps, n, maxBytes) == Fit(ps, 1, maxBytes)
    {
      var c0 := if n == 0 then Min(startCol, v.cols - 1) else 0;
      var row, wrapped := ReadRow(v.rows[p + n], c0, v.cols - 1);
      PieceOf(v, p, startCol, q, v.cols - 1, n);
      var fits;
      fits, text := AppendRow(text, n == 0, prevWrapped, row, maxBytes, ps, n);
      if !fits {
        return;
      }
      prevWrapped, n := wrapped, n + 1;
    }
  }

  // ---------------------------------------------------------------------------------------
  // Paging
  // ---------------------------------------------------------------------------------------

  /**
    What one page holds: whole rows from the clamped start, at most the cap unless its first
    row alone exceeds it, and if it is truncated then no longer prefix fits.
   */
  lemma PageIsGreedy(v: View, from: nat, col: nat, end: Option<nat>, cap: nat)
    requires ValidView(v) && ReadsRows(v, from, col, end)
    ensures var p, ps := SeqPage(v, from, col, end, cap), Asked(v, from, col, end);
      var n := Fit(ps, 1, cap);
      && 1 <= n <= |ps| && p.text == Join(ps, n)
      && ByteLen(p.text) <= Max(cap, ByteLen(ps[0].text))
      && (p.truncated <==> n < |ps|)
      && (forall k :: n < k <= |ps| ==> ByteLen(Join(ps, k)) > cap)
  {
    hide RowText, Pieces;
    var ps := Asked(v, from, col, end);
    var n := Fit(ps, 1, cap);
    FitIsGreedy(ps, 1, cap);
    JoinLenIsByteLen(ps, n);
    forall k | n < k <= |ps| ensures ByteLen(Join(ps, k)) > cap {
      JoinLenIsByteLen(ps, k);
    }
  }

  /**
    The cursors of an answer. Retained rows start `|rows| - screen` below the counter; a start
    before them is moved to the first of them and reported as evicted; a complete read stops at
    the end asked for or at the cursor, at most one row past the screen; an empty read starts
    where it stops.
   */
  lemma CursorsOfARead(v: View, from: nat, col: nat, end: Option<nat>, cap: nat)
    requires ValidView(v) && v.screen > 0 && v.cols > 0
    ensures var p, oldest := SeqPage(v, from, col, end, cap), Max(v.rotated + v.screen - |v.rows|, 0);
      var stop := match end
        case None => (v.rotated + Max(v.cursorRow, 0), v.cursorCol)
        case Some(e) => (Min(e, v.rotated + v.screen), 0);
      var start := if from < oldest then (oldest, 0) else (from, col);
      && (p.evicted <==> from < oldest)
      && (!p.truncated ==> (p.nextSeq, p.nextCol) == stop)
      && (p.truncated ==> p.startSeq < p.nextSeq < v.rotated + v.screen && p.nextCol == 0)
      && (start.0 > stop.0 || (start.0 == stop.0 && start.1 > stop.1) ==>
            (p.startSeq, p.startCol) == stop && p.text == [] && !p.truncated)
      && (start.0 < stop.0 || (start.0 == stop.0 && start.1 <= stop.1) ==> (p.startSeq, p.startCol) == start)
  {
    hide RowText, Pieces, PieceAt, Join, JoinLen;
  }

  /** Re-asking from each truncated page's cursor; page `i` is read under the cap `caps(i)`. */
  function Pages(v: View, from: nat, col: nat, end: Option<nat>, caps: nat -> nat, i: nat): seq<Page>
    requires ValidView(v)
    decreases Monus(GridEnd(v), from)
  {
    var p := SeqPage(v, from, col, end, caps(i));
    [p] + if p.truncated then Pages(v, p.nextSeq, p.nextCol, end, caps, i + 1) else []
  }

  /** A truncated page advances, and its cursor asks for exactly the rows it left out. */
  lemma PageStep(v: View, from: nat, col: nat, end: Option<nat>, cap: nat)
    requires ValidView(v) && ReadsRows(v, from, col, end)
    ensures var p, ps := SeqPage(v, from, col, end, cap), Asked(v, from, col, end);
      && p.startSeq == StartSeq(v, from) && p.startCol == StartCol(v, from, col)
      && p.evicted == Evicted(v, from)
      && p.startSeq + |ps| == EndInclusive(v, end) + 1
      && |ps| > 0 && p.text == Whole(ps[..Fit(ps, 1, cap)]) && (p.truncated <==> Fit(ps, 1, cap) < |ps|)
      && (p.truncated ==>
            && p.nextSeq == p.startSeq + Fit(ps, 1, cap) > p.startSeq && p.nextCol == 0
            && ReadsRows(v, p.nextSeq, 0, end) && StartSeq(v, p.nextSeq) == p.nextSeq
            && StartCol(v, p.nextSeq, 0) == 0 && !Evicted(v, p.nextSeq) && p.nextSeq < GridEnd(v) && from < p.nextSeq
            && Asked(v, p.nextSeq, 0, end) == ps[Fit(ps, 1, cap)..])
      && (!p.truncated ==> p.nextSeq == DoneSeq(v, end) && p.nextCol == DoneCol(v, end))
  {
    hide RowText, Pieces, PieceAt, Join;
    var ps := Asked(v, from, col, end);
    JoinPrefix(ps, ps[..Fit(ps, 1, cap)], Fit(ps, 1, cap));
    var p := SeqPage(v, from, col, end, cap);
    if p.truncated {
      LaterPieces(v, Pos(v, StartSeq(v, from)), StartCol(v, from, col), Pos(v, EndInclusive(v, end)), Fit(ps, 1, cap));
    }
  }

  lemma LaterPieces(v: View, p: nat, c: nat, q: nat, n: nat)
    requires ValidView(v) && v.cols > 0 && p < p + n <= q < |v.rows|
    ensures Pieces(v, p + n, 0, q, v.cols - 1) == Pieces(v, p, c, q, v.cols - 1)[n..]
  {
    hide RowText, Pieces;
    var all, later := Pieces(v, p, c, q, v.cols - 1), Pieces(v, p + n, 0, q, v.cols - 1);
    forall i | 0 <= i < |later| ensures later[i] == all[n..][i] {
      PieceOf(v, p + n, 0, q, v.cols - 1, i);
      PieceOf(v, p, c, q, v.cols - 1, n + i);
    }
  }

  /** Every truncated page advances and the next page starts exactly where it stopped. */
  predicate Chained(pages: seq<Page>) {
    && (forall i :: 0 <= i < |pages| - 1 ==>
          pages[i].truncated && pages[i].startSeq < pages[i].nextSeq && pages[i].nextCol == 0)
    && (forall i :: 0 < i < |pages| ==>
          pages[i].startSeq == pages[i - 1].nextSeq && pages[i].startCol == 0 && !pages[i].evicted)
    && (pages != [] ==> !pages[|pages| - 1].truncated)
  }

  /**
    The pages hold the rows of `cut` one page each, from `start` to `stop` exclusive, and the
    last one resumes at (`doneSeq`, `doneCol`).
   */
  predicate Partitions(pages: seq<Page>, cut: seq<seq<Piece>>, start: nat, stop: nat, doneSeq: nat, doneCol: nat) {
    && |pages| == |cut| > 0 && Chained(pages) && pages[0].startSeq == start
    && (forall k :: 0 <= k < |pages| ==> pages[k].text == Whole(cut[k]))
    && (forall k :: 0 <= k < |pages| - 1 ==> pages[k].nextSeq == pages[k].startSeq + |cut[k]|)
    && pages[|pages| - 1].startSeq + |cut[|pages| - 1]| == stop
    && pages[|pages| - 1].nextSeq == doneSeq && pages[|pages| - 1].nextCol == doneCol
  }

  lemma SinglePage(p: Page, ps: seq<Piece>, stop: nat)
    requires !p.truncated && p.text == Whole(ps) && p.startSeq + |ps| == stop
    ensures Partitions([p], [ps], p.startSeq, stop, p.nextSeq, p.nextCol)
  {
    hide Whole;
  }

  lemma PrependPage(
      p: Page, ps: seq<Piece>, pages: seq<Page>, cut: seq<seq<Piece>>, stop: nat, doneSeq: nat, doneCol: nat)
    requires Partitions(pages, cut, p.nextSeq, stop, doneSeq, doneCol)
    requires |pages| > 0 && pages[0].startCol == 0 && !pages[0].evicted
    requires p.truncated && p.text == Whole(ps) && p.nextSeq == p.startSeq + |ps| > p.startSeq && p.nextCol == 0
    ensures Partitions([p] + pages, [ps] + cut, p.startSeq, stop, doneSeq, doneCol)
  {
    hide Whole;
  }

  lemma PagesUnfold(v: View, from: nat, col: nat, end: Option<nat>, caps: nat -> nat, i: nat)
    requires ValidView(v)
    ensures var p := SeqPage(v, from, col, end, caps(i));
      Pages(v, from, col, end, caps, i)
      == if p.truncated then [p] + Pages(v, p.nextSeq, p.nextCol, end, caps, i + 1) else [p]
  {
    hide SeqPage;
  }

  /**
    Paging from any start with any caps ends, each page starts where the one before stopped,
    the last one reports where the range ends, and the pages hold the asked rows cut in
    order: no row is lost or repeated.
   */
  lemma {:induction false} PagesPartitionTheRange(
      v: View, from: nat, col: nat, end: Option<nat>, caps: nat -> nat, i: nat)
    requires ValidView(v) && ReadsRows(v, from, col, end)
    ensures var pages, cut := Pages(v, from, col, end, caps, i), Cut(Asked(v, from, col, end), caps, i);
      && Partitions(pages, cut, StartSeq(v, from), EndInclusive(v, end) + 1, DoneSeq(v, end), DoneCol(v, end))
      && pages[0].startCol == StartCol(v, from, col) && pages[0].evicted == Evicted(v, from)
    decreases Monus(GridEnd(v), from)
  {
    var stop := EndInclusive(v, end) + 1;
    hide RowText, Pieces, Join, Asked, SeqPage, ReadsRows, EndInclusive, DoneSeq, DoneCol, StartCol, StartSeq, Evicted;
    hide Partitions, Chained, Fit, Pages, Cut, Whole;
    PageStep(v, from, col, end, caps(i));
    PagesUnfold(v, from, col, end, caps, i);
    var p, ps := SeqPage(v, from, col, end, caps(i)), Asked(v, from, col, end);
    var n := Fit(ps, 1, caps(i));
    CutUnfold(ps, caps, i);
    if p.truncated {
      PagesPartitionTheRange(v, p.nextSeq, p.nextCol, end, caps, i + 1);
      PrependPage(p, ps[..n], Pages(v, p.nextSeq, 0, end, caps, i + 1),
          Cut(ps[n..], caps, i + 1), stop, DoneSeq(v, end), DoneCol(v, end));
    } else {
      assert ps[..n] == ps;
      SinglePage(p, ps, stop);
    }
  }

  /** The pages of any paging, joined, are the text of one read whose cap covers the range. */
  lemma PagesEqualOneRead(v: View, from: nat, col: nat, end: Option<nat>, caps: nat -> nat, cap: nat)
    requires ValidView(v) && ReadsRows(v, from, col, end)
    requires cap >= ByteLen(Whole(Asked(v, from, col, end)))
    ensures var pages, cut := Pages(v, from, col, end, caps, 0), Cut(Asked(v, from, col, end), caps, 0);
      && |pages| == |cut| && (forall k :: 0 <= k < |pages| ==> pages[k].text == Whole(cut[k]))
      && Flatten(cut) == Asked(v, from, col, end)
      && JoinPages(cut) == SeqPage(v, from, col, end, cap).text
      && !SeqPage(v, from, col, end, cap).truncated
  {
    hide RowText, Pieces, Asked, Join, Cut, Pages, ReadsRows, ByteLen, JoinLen;
    var ps := Asked(v, from, col, end);
    PageStep(v, from, col, end, cap);
    PagesPartitionTheRange(v, from, col, end, caps, 0);
    CutLosesNothing(ps, caps, 0);
    FitIsGreedy(ps, 1, cap);
    JoinLenIsByteLen(ps, |ps|);
    assert ps[..|ps|] == ps;
  }

  /**
    `end_seq` is exclusive except in one case: end 0 asked for from the very first cell while
    row 0 is still retained returns row 0.
   */
  lemma EndIsExclusiveUnlessZero(v: View, from: nat, col: nat, end: nat, cap: nat)
    requires ValidView(v)
    ensures (ReadsRows(v, from, col, Some(end))
             && StartSeq(v, from) + Fit(Asked(v, from, col, Some(end)), 1, cap) > end)
       <==> (end == 0 && from == 0 && col == 0 && OldestSeq(v) == 0 && v.screen > 0 && v.cols > 0)
  {
    if ReadsRows(v, from, col, Some(end)) {
      PageStep(v, from, col, Some(end), cap);
    }
  }

  // ---------------------------------------------------------------------------------------
  // get_text_range
  // ---------------------------------------------------------------------------------------

  const TAIL_MAX: nat := 0x1_0000_0000
  const HALF: int := 0x8000_0000

  /** Grid lines are numbered by signed 32-bit integers. */
  predicate Addressable(v: View) { |v.rows| < HALF }

  /** A number as a signed 32-bit integer. */
  function I32(n: int): int { (n + HALF) % TAIL_MAX - HALF }

  /** The grid line `tail` above the bottom; line 0 is the top of the viewport. */
  function TailLine(v: View, tail: nat): int { I32(v.screen - 1 - I32(tail)) }

  /** A distance from the bottom that the signed arithmetic carries. */
  predicate TailFits(v: View, tail: nat) { tail <= HALF + v.screen - 1 }

  /** Beyond that the line comes out below the bottom instead of above the top. */
  lemma TailLineIs(v: View, tail: nat)
    requires ValidView(v) && Addressable(v) && tail < TAIL_MAX
    ensures TailLine(v, tail) == v.screen - 1 - tail + if TailFits(v, tail) then 0 else TAIL_MAX
  {
    Signed(tail, if tail < HALF then 0 else -1);
    var line := v.screen - 1 - I32(tail);
    Signed(line, if line < HALF then 0 else -1);
    hide I32;
  }

  lemma Signed(n: int, k: int)
    requires -HALF <= n + k * TAIL_MAX < HALF && -1 <= k <= 0
    ensures I32(n) == n + k * TAIL_MAX
  {
  }

  /** What `get_text_range` answers. */
  function RangeText(v: View, startTail: nat, startCol: nat, endTail: nat, endCol: nat): string
    requires ValidView(v) && v.cols > 0
  {
    var h: int, last: int := History(v), v.screen - 1;
    var startLine, endLine := TailLine(v, startTail), TailLine(v, endTail);
    var first, end := Max(startLine, -h), Min(endLine, last);
    if first > end then []
    else
      Whole(Pieces(v, first + h, if first == startLine then startCol else 0,
                   end + h, if end == endLine then endCol else v.cols - 1))
  }

  method GetTextRange(v: View, startTail: nat, startCol: nat, endTail: nat, endCol: nat) returns (result: string)
    requires ValidView(v) && v.cols > 0
    ensures result == RangeText(v, startTail, startCol, endTail, endCol)
  {
    hide RowText, Pieces, Whole, I32;
    var h: int, lastLine: int := History(v), v.screen - 1;
    var startLine, endLine := TailLine(v, startTail), TailLine(v, endTail);
    var line := Max(startLine, -h);
    var end := Min(endLine, lastLine);
    if line > end {
      return [];
    }
    result := RangeRows(v, line + h, if line == startLine then startCol else 0,
                        end + h, if end == endLine then endCol else v.cols - 1);
  }

  /** The row loop of `GetTextRange`: stored rows `p` to `q`. */
  method RangeRows(v: View, p: nat, startCol: nat, q: nat, endCol: nat) returns (result: string)
    requires ValidView(v) && v.cols > 0 && p <= q < |v.rows|
    ensures result == Whole(Pieces(v, p, startCol, q, endCol))
  {
    hide RowText, Pieces, PieceAt, Whole, Trail, ValidView;
    ghost var ps := Pieces(v, p, startCol, q, endCol);
    result := [];
    NoTrail(ps);
    var i := p;
    while i <= q
      invariant p <= i <= q + 1
      invariant i <= q ==> result == Trail(ps, i - p)
      invariant i > q ==> result == Whole(ps)
    {
      var text, wrapped := ReadPiece(v, p, startCol, q, endCol, i);
      result := AppendTrail(ps, i - p, i == q, result, text, wrapped);
      i := i + 1;
    }
  }

  method ReadPiece(v: View, p: nat, startCol: nat, q: nat, endCol: nat, i: nat) returns (text: string, wrapped: bool)
    requires ValidView(v) && v.cols > 0 && p <= i <= q < |v.rows|
    ensures Pieces(v, p, startCol, q, endCol)[i - p] == Piece(text, wrapped)
  {
    hide RowText, Pieces;
    PieceOf(v, p, startCol, q, endCol, i - p);
    var c0 := if i == p then Min(startCol, v.cols - 1) else 0;
    var c1 := if i == q then Min(endCol, v.cols - 1) else v.cols - 1;
    text, wrapped := ReadRow(v.rows[i], c0, c1);
  }

  lemma NoTrail(ps: seq<Piece>)
    ensures Trail(ps, 0) == []
  {
  }

  method AppendTrail(
      ghost ps: seq<Piece>, ghost n: nat, last: bool, before: string, text: string, wrapped: bool)
      returns (result: string)
    requires n < |ps| && last == (n + 1 == |ps|) && ps[n] == Piece(text, wrapped) && before == Trail(ps, n)
    ensures n + 1 < |ps| ==> result == Trail(ps, n + 1)
    ensures n + 1 == |ps| ==> result == Whole(ps)
  {
    TrailIsJoin(ps, n + 1);
    hide Join;
    result := before + text;
    if !last {
      if !wrapped {
        result := result + ['\n'];
      } else {
        assert result + [] == result;
      }
    }
  }

  lemma EndColClamps(v: View, p: nat, c: nat, q: nat, endCol: nat)
    requires ValidView(v) && v.cols > 0 && p <= q < |v.rows| && endCol >= v.cols - 1
    ensures Pieces(v, p, c, q, v.cols - 1) == Pieces(v, p, c, q, endCol)
  {
    hide RowText, Pieces;
    var ps, ps' := Pieces(v, p, c, q, v.cols - 1), Pieces(v, p, c, q, endCol);
    forall i | 0 <= i < |ps| ensures ps[i] == ps'[i] {
      PieceOf(v, p, c, q, v.cols - 1, i);
      PieceOf(v, p, c, q, endCol, i);
    }
  }

  /** Reading rows `a` to `b` by sequence and by distance from the bottom gives the same text. */
  predicate Agree(v: View, a: nat, col: nat, b: nat, endCol: nat, cap: nat)
    requires ValidView(v) && v.cols > 0 && a < GridEnd(v) && b < GridEnd(v)
  {
    SeqPage(v, a, col, Some(b + 1), cap).text == RangeText(v, TailOf(v, a), col, TailOf(v, b), endCol)
  }

  function TailOf(v: View, s: nat): nat
    requires s < GridEnd(v)
  {
    GridEnd(v) - 1 - s
  }

  /** The calls `get_text_range` can be given. */
  predicate Callable(v: View, a: nat, b: nat) {
    && ValidView(v) && Addressable(v) && v.screen > 0 && v.cols > 0
    && a < GridEnd(v) && b < GridEnd(v) && TailOf(v, a) < TAIL_MAX && TailOf(v, b) < TAIL_MAX
  }

  /** Wherever the range starts (evicted starts included), while both distances fit. */
  lemma ReadersAgree(v: View, a: nat, col: nat, b: nat, endCol: nat, cap: nat)
    requires Callable(v, a, b) && endCol >= v.cols - 1 && !SeqPage(v, a, col, Some(b + 1), cap).truncated
    requires TailFits(v, TailOf(v, a)) && TailFits(v, TailOf(v, b))
    ensures Agree(v, a, col, b, endCol, cap)
  {
    hide RowText, Pieces, Join, Fit, PieceAt, TailLine;
    TailLineIs(v, TailOf(v, a));
    TailLineIs(v, TailOf(v, b));
    if ReadsRows(v, a, col, Some(b + 1)) {
      EndColClamps(v, Pos(v, StartSeq(v, a)), StartCol(v, a, col), Pos(v, b), endCol);
    }
  }

  /** A start too far away reads nothing. */
  lemma FarStartReadsNothing(v: View, startTail: nat, startCol: nat, endTail: nat, endCol: nat)
    requires ValidView(v) && Addressable(v) && v.cols > 0 && startTail < TAIL_MAX && !TailFits(v, startTail)
    ensures RangeText(v, startTail, startCol, endTail, endCol) == []
  {
    hide TailLine, Pieces;
    TailLineIs(v, startTail);
  }

  /** An end too far away reads to the bottom. */
  lemma FarEndReadsAll(v: View, startTail: nat, startCol: nat, endTail: nat, endCol: nat)
    requires ValidView(v) && Addressable(v) && v.screen > 0 && v.cols > 0
    requires TailFits(v, startTail) && startTail < TAIL_MAX && endTail < TAIL_MAX && !TailFits(v, endTail)
    ensures var first := Max(v.screen - 1 - startTail, -(History(v) as int)) + History(v);
      && 0 <= first < |v.rows|
      && RangeText(v, startTail, startCol, endTail, endCol)
         == Whole(Pieces(v, first, if startTail <= v.screen - 1 + History(v)
             then startCol else 0, |v.rows| - 1, v.cols - 1))
  {
    hide TailLine, Pieces, Whole;
    TailLineIs(v, startTail);
    TailLineIs(v, endTail);
  }

  // ---------------------------------------------------------------------------------------
  // Exactly when the readers agree
  // ---------------------------------------------------------------------------------------

  predicate SameShape(v: View, v': View) {
    |v.rows| == |v'.rows| && v'.(rows := v.rows) == v
  }

  function LetterCell(): Cell {
    Cell('x', None, false, false, Style(Indexed(0), Indexed(0), false, false, false, false, false))
  }

  function LetterRow(cols: nat): Row { Row(seq(cols, _ => LetterCell()), false) }

  /** The same terminal with a letter in every cell. */
  function Filled(v: View): (v': View)
    ensures SameShape(v, v') && forall i :: 0 <= i < |v'.rows| ==> v'.rows[i] == LetterRow(v.cols)
  {
    v.(rows := seq(|v.rows|, _ => LetterRow(v.cols)))
  }

  lemma LettersShow(cols: nat, c: nat)
    requires c < cols
    ensures RowText(LetterRow(cols), c, cols - 1) != []
  {
    var cells := LetterRow(cols).cells;
    CellsTextSplit(cells, c, cols - 1, cols);
    OneCellText(cells, cols - 1);
    var text := CellsText(cells, c, cols);
    hide CellsText;
    assert text[|text| - 1] == 'x';
  }

  lemma {:induction false} JoinShowsFirst(ps: seq<Piece>, n: nat)
    requires 0 < n <= |ps| && ps[0].text != []
    ensures Join(ps, n) != []
    decreases n
  {
    if n > 1 {
      JoinShowsFirst(ps, n - 1);
    }
  }

  /** Any rows read from a terminal full of letters show something. */
  lemma FilledShows(v: View, p: nat, c: nat, q: nat)
    requires ValidView(v) && v.cols > 0 && p <= q < |v.rows|
    ensures ValidView(Filled(v)) && Whole(Pieces(Filled(v), p, c, q, v.cols - 1)) != []
  {
    hide RowText, Pieces, Join;
    var v' := Filled(v);
    assert |LetterRow(v.cols).cells| == v.cols;
    PieceOf(v', p, c, q, v.cols - 1, 0);
    LettersShow(v.cols, Min(c, v.cols - 1));
    JoinShowsFirst(Pieces(v', p, c, q, v.cols - 1), q + 1 - p);
  }

  /** Whether the readers agree whatever the rows of the terminal hold. */
  ghost predicate AlwaysAgree(v: View, a: nat, col: nat, b: nat, endCol: nat)
    requires a < GridEnd(v) && b < GridEnd(v) && v.cols > 0
  {
    forall v', cap: nat ::
      SameShape(v, v') && ValidView(v') && !SeqPage(v', a, col, Some(b + 1), cap).truncated ==>
          Agree(v', a, col, b, endCol, cap)
  }

  /** The distances fit, or nothing retained is asked for and nothing is read. */
  predicate TailsAgree(v: View, a: nat, b: nat)
    requires a < GridEnd(v) && b < GridEnd(v)
  {
    if TailFits(v, TailOf(v, a)) then TailFits(v, TailOf(v, b)) else b < OldestSeq(v)
  }

  lemma TailsThatAgree(v: View, a: nat, col: nat, b: nat, endCol: nat, cap: nat)
    requires Callable(v, a, b) && endCol >= v.cols - 1 && !SeqPage(v, a, col, Some(b + 1), cap).truncated
    requires TailsAgree(v, a, b)
    ensures Agree(v, a, col, b, endCol, cap)
  {
    hide RowText, Pieces, Join, Fit, PieceAt, RangeText;
    if TailFits(v, TailOf(v, a)) {
      ReadersAgree(v, a, col, b, endCol, cap);
    } else {
      FarStartReadsNothing(v, TailOf(v, a), col, TailOf(v, b), endCol);
    }
  }

  /** A cap nothing is cut at. */
  lemma ReadWhole(v: View, from: nat, col: nat, end: Option<nat>) returns (cap: nat)
    requires ValidView(v)
    ensures !SeqPage(v, from, col, end, cap).truncated
    ensures ReadsRows(v, from, col, end) ==> SeqPage(v, from, col, end, cap).text == Whole(Asked(v, from, col, end))
  {
    hide RowText, Pieces, PieceAt, Join, JoinLen, ByteLen, Fit;
    cap := 0;
    if ReadsRows(v, from, col, end) {
      var ps := Asked(v, from, col, end);
      cap := ByteLen(Whole(ps));
      JoinLenIsByteLen(ps, |ps|);
      FitIsGreedy(ps, 1, cap);
    }
  }

  lemma TailsThatDisagree(v: View, a: nat, col: nat, b: nat, endCol: nat) returns (cap: nat)
    requires Callable(v, a, b) && !TailsAgree(v, a, b)
    ensures ValidView(Filled(v)) && !SeqPage(Filled(v), a, col, Some(b + 1), cap).truncated
    ensures !Agree(Filled(v), a, col, b, endCol, cap)
  {
    hide RowText, Pieces, PieceAt, Join, Fit, RangeText, Filled;
    FilledShows(v, 0, 0, |v.rows| - 1);
    var v' := Filled(v);
    cap := ReadWhole(v', a, col, Some(b + 1));
    if TailFits(v, TailOf(v, a)) {
      FarEndReadsAll(v', TailOf(v, a), col, TailOf(v, b), endCol);
      var first := Max(v.screen - 1 - TailOf(v, a), -(History(v) as int)) + History(v);
      FilledShows(v, first, if TailOf(v, a) <= v.screen - 1 + History(v) then col else 0, |v.rows| - 1);
    } else {
      FarStartReadsNothing(v', TailOf(v, a), col, TailOf(v, b), endCol);
      FilledShows(v, Pos(v, StartSeq(v, a)), StartCol(v, a, col), Pos(v, b));
    }
  }

  /**
    The readers agree on a range whatever the rows hold exactly when its distances from the
    bottom fit the signed arithmetic, or the whole range is evicted and starts beyond it.
   */
  lemma ReadersAgreeExactly(v: View, a: nat, col: nat, b: nat, endCol: nat)
    requires Callable(v, a, b) && endCol >= v.cols - 1
    ensures AlwaysAgree(v, a, col, b, endCol) <==> TailsAgree(v, a, b)
  {
    hide SeqPage, Agree, Filled;
    if TailsAgree(v, a, b) {
      forall v', cap: nat | SameShape(v, v') && ValidView(v') && !SeqPage(v', a, col, Some(b + 1), cap).truncated
        ensures Agree(v', a, col, b, endCol, cap)
      {
        TailsThatAgree(v', a, col, b, endCol, cap);
      }
    } else {
      var cap := TailsThatDisagree(v, a, col, b, endCol);
    }
  }

  // ---------------------------------------------------------------------------------------
  // What a range holds, row by row
  // ---------------------------------------------------------------------------------------

  /** A range whose first row is `startTail` and whose last is `endTail` above the bottom, both in the grid. */
  predicate InGrid(v: View, startTail: nat, endTail: nat) {
    ValidView(v) && Addressable(v) && v.cols > 0 && endTail <= startTail < |v.rows|
  }

  /** The row `tail` above the bottom. */
  function RowAbove(v: View, tail: nat): Row
    requires tail < |v.rows|
  {
    v.rows[|v.rows| - 1 - tail]
  }

  lemma RangeIsPieces(v: View, s: nat, c: nat, u: nat, d: nat)
    requires InGrid(v, s, u)
    ensures RangeText(v, s, c, u, d) == Whole(Pieces(v, |v.rows| - 1 - s, c, |v.rows| - 1 - u, d))
  {
    hide TailLine, Pieces, Whole;
    TailLineIs(v, s);
    TailLineIs(v, u);
  }

  /** A range on one row: from its start column to its end column, each at most the last column. */
  lemma OneRowRange(v: View, t: nat, c: nat, e: nat)
    requires InGrid(v, t, t)
    ensures RangeText(v, t, c, t, e) == RowText(RowAbove(v, t), Min(c, v.cols - 1), Min(e, v.cols - 1))
  {
    hide RowText, Pieces, RangeText;
    RangeIsPieces(v, t, c, t, e);
    PieceOf(v, |v.rows| - 1 - t, c, |v.rows| - 1 - t, e, 0);
  }

  /** A longer range: the rows above its last to their ends, a newline unless they wrap, and the last row's start. */
  lemma LastRowOfRange(v: View, s: nat, c: nat, u: nat, e: nat)
    requires InGrid(v, s, u) && u < s
    ensures RangeText(v, s, c, u, e)
         == RangeText(v, s, c, u + 1, v.cols - 1)
            + (if RowAbove(v, u + 1).wrapped then "" else "\n")
            + RowText(RowAbove(v, u), 0, Min(e, v.cols - 1))
  {
    hide RowText, Pieces, RangeText, PieceAt, Join;
    var p, q := |v.rows| - 1 - s, |v.rows| - 1 - u;
    RangeIsPieces(v, s, c, u, e);
    RangeIsPieces(v, s, c, u + 1, v.cols - 1);
    var ps, above := Pieces(v, p, c, q, e), Pieces(v, p, c, q - 1, v.cols - 1);
    PiecesAbove(v, p, c, q, e);
    JoinPrefix(ps, above, |above|);
    LastJoined(ps);
  }

  lemma LastJoined(ps: seq<Piece>)
    requires |ps| > 1
    ensures Whole(ps)
         == Join(ps, |ps| - 1) + (if ps[|ps| - 2].wrapped then "" else "\n") + ps[|ps| - 1].text
  {
  }

  lemma PiecesAbove(v: View, p: nat, c: nat, q: nat, e: nat)
    requires ValidView(v) && v.cols > 0 && p < q < |v.rows|
    ensures var ps, above := Pieces(v, p, c, q, e), Pieces(v, p, c, q - 1, v.cols - 1);
      && (forall i :: 0 <= i < |above| ==> ps[i] == above[i])
      && ps[q - p] == Piece(RowText(v.rows[q], 0, Min(e, v.cols - 1)), v.rows[q].wrapped)
      && ps[q - p - 1].wrapped == v.rows[q - 1].wrapped
  {
    hide RowText, Pieces;
    forall i | 0 <= i < q - p ensures Pieces(v, p, c, q, e)[i] == Pieces(v, p, c, q - 1, v.cols - 1)[i] {
      PieceOf(v, p, c, q, e, i);
      PieceOf(v, p, c, q - 1, v.cols - 1, i);
    }
    PieceOf(v, p, c, q, e, q - p);
    PieceOf(v, p, c, q, e, q - p - 1);
  }

  /** A start above the grid is its first cell. */
  lemma StartAboveGrid(v: View, s: nat, c: nat, u: nat, e: nat)
    requires ValidView(v) && Addressable(v) && v.cols > 0 && u < |v.rows| <= s < TAIL_MAX && TailFits(v, s)
    ensures RangeText(v, s, c, u, e) == RangeText(v, |v.rows| - 1, 0, u, e)
  {
    hide TailLine, Pieces, Whole;
    TailLineIs(v, s);
    TailLineIs(v, u);
    TailLineIs(v, |v.rows| - 1);
  }

  /** A range that ends above its start, or above the grid, is empty. */
  lemma EndAboveStart(v: View, s: nat, c: nat, u: nat, e: nat)
    requires ValidView(v) && Addressable(v) && v.cols > 0 && s < TAIL_MAX && u < TAIL_MAX
    requires TailFits(v, s) && TailFits(v, u) && (s < u || |v.rows| <= u)
    ensures RangeText(v, s, c, u, e) == []
  {
    hide TailLine, Pieces, Whole;
    TailLineIs(v, s);
    TailLineIs(v, u);
  }

  /** The columns that a range from (`s`, `c`) to (`u`, `d`) takes of its row `t`. */
  function ColsOf(v: View, s: nat, c: nat, u: nat, d: nat, t: nat): (nat, nat)
    requires v.cols > 0
  {
    (if t == s then Min(c, v.cols - 1) else 0, if t == u then Min(d, v.cols - 1) else v.cols - 1)
  }

  /**
    Two ranges that meet between columns `e` and `e + 1` of a row make the whole range exactly
    when that row wraps, or no blank is trimmed before the meeting point, or only blanks follow it.
   */
  lemma RangesMeet(v: View, s: nat, c: nat, u: nat, d: nat, t: nat, e: nat)
    requires InGrid(v, s, u) && u <= t <= s && e + 1 < v.cols
    requires var (c0, d0) := ColsOf(v, s, c, u, d, t); c0 <= e + 1 && e <= d0
    ensures var (c0, d0) := ColsOf(v, s, c, u, d, t);
      var before := CellsText(RowAbove(v, t).cells, c0, e + 1);
      var rest := CellsText(RowAbove(v, t).cells, e + 1, d0 + 1);
      RangeText(v, s, c, t, e) + RangeText(v, t, e + 1, u, d) == RangeText(v, s, c, u, d) <==>
        RowAbove(v, t).wrapped || TrimEnd(before) == before || TrimEnd(rest) == []
  {
    hide RowText, Pieces, PieceAt, RangeText, Head, Tail, Whole, CellsText, TrimEnd;
    var p, k, q := |v.rows| - 1 - s, |v.rows| - 1 - t, |v.rows| - 1 - u;
    var m := k - p;
    RangeIsPieces(v, s, c, t, e);
    RangeIsPieces(v, t, e + 1, u, d);
    RangeIsPieces(v, s, c, u, d);
    var ps1, ps2, ps := Pieces(v, p, c, k, e), Pieces(v, k, e + 1, q, d), Pieces(v, p, c, q, d);
    MeetingHead(v, p, c, k, e, q, d);
    MeetingTail(v, p, c, k, e, q, d);
    AroundRow(ps1, m);
    AroundRow(ps2, 0);
    AroundRow(ps, m);
    var (c0, d0) := ColsOf(v, s, c, u, d, t);
    MeetingRow(RowAbove(v, t), c0, e, d0);
    SplitInRow(Head(ps, m), Tail(ps, m), ps1[m].text, ps2[0].text, ps[m].text);
  }

  lemma MeetingRow(row: Row, c0: nat, e: nat, d0: nat)
    requires c0 <= e + 1 <= d0 + 1 <= |row.cells|
    ensures var before, rest := CellsText(row.cells, c0, e + 1), CellsText(row.cells, e + 1, d0 + 1);
      RowText(row, c0, e) + RowText(row, e + 1, d0) == RowText(row, c0, d0) <==>
        row.wrapped || TrimEnd(before) == before || TrimEnd(rest) == []
  {
    hide CellsText, TrimEnd;
    CellsTextSplit(row.cells, c0, e + 1, d0 + 1);
    RenderInTwoParts(CellsText(row.cells, c0, e + 1), CellsText(row.cells, e + 1, d0 + 1), row.wrapped);
  }

  lemma MeetingHead(v: View, p: nat, c: nat, k: nat, e: nat, q: nat, d: nat)
    requires ValidView(v) && p <= k <= q < |v.rows| && e + 1 < v.cols
    ensures var m, ps1, ps := k - p, Pieces(v, p, c, k, e), Pieces(v, p, c, q, d);
      && Head(ps1, m) == Head(ps, m) && Tail(ps1, m) == []
      && ps1[m].text == RowText(v.rows[k], if m == 0 then Min(c, v.cols - 1) else 0, e)
      && ps[m].text == RowText(v.rows[k], if m == 0 then Min(c, v.cols - 1) else 0,
                               if k == q then Min(d, v.cols - 1) else v.cols - 1)
  {
    hide RowText, Pieces, Join, Newline;
    var m, ps1, ps := k - p, Pieces(v, p, c, k, e), Pieces(v, p, c, q, d);
    forall i | 0 <= i < m ensures ps1[i] == ps[i] {
      PieceOf(v, p, c, k, e, i);
      PieceOf(v, p, c, q, d, i);
    }
    PieceOf(v, p, c, k, e, m);
    PieceOf(v, p, c, q, d, m);
    JoinPrefix(ps1, ps, m);
  }

  lemma MeetingTail(v: View, p: nat, c: nat, k: nat, e: nat, q: nat, d: nat)
    requires ValidView(v) && p <= k <= q < |v.rows| && e + 1 < v.cols
    ensures var m, ps2, ps := k - p, Pieces(v, k, e + 1, q, d), Pieces(v, p, c, q, d);
      && Head(ps2, 0) == [] && Tail(ps2, 0) == Tail(ps, m)
      && ps2[0].text == RowText(v.rows[k], e + 1, if k == q then Min(d, v.cols - 1) else v.cols - 1)
  {
    hide RowText, Pieces, Join, Newline;
    var m, ps2, ps := k - p, Pieces(v, k, e + 1, q, d), Pieces(v, p, c, q, d);
    forall i | 0 <= i < |ps2| ensures ps2[i].wrapped == ps[m + i].wrapped && (i > 0 ==> ps2[i] == ps[m + i]) {
      PieceOf(v, k, e + 1, q, d, i);
      PieceOf(v, p, c, q, d, m + i);
    }
    PieceOf(v, k, e + 1, q, d, 0);
    assert ps2[1..] == ps[m + 1..];
    SameNewline(ps2[0], ps[m]);
  }

  // ---------------------------------------------------------------------------------------
  // Resuming at the cursor
  // ---------------------------------------------------------------------------------------

  function RowAt(v: View, s: nat): (row: Row)
    requires ValidView(v) && OldestSeq(v) <= s < GridEnd(v)
    ensures |row.cells| == v.cols
  {
    v.rows[Pos(v, s)]
  }

  /** `later` continues `v`: older rows unchanged, the cursor row unchanged left of the cursor. */
  predicate Continues(v: View, later: View, a: nat) {
    && ValidView(v) && ValidView(later) && v.cols == later.cols > 0 && v.screen > 0 && later.screen > 0
    && OldestSeq(v) <= a && OldestSeq(later) <= a <= CursorSeq(v)
    && v.cursorCol < v.cols
    && !After(CursorSeq(v), v.cursorCol, CursorSeq(later), later.cursorCol)
    && (forall s :: a <= s < CursorSeq(v) ==> RowAt(later, s) == RowAt(v, s))
    && RowAt(later, CursorSeq(v)).cells[..v.cursorCol] == RowAt(v, CursorSeq(v)).cells[..v.cursorCol]
  }

  /** Nothing is written yet at or right of the cursor. */
  predicate BlankFromCursor(v: View)
    requires ValidView(v) && v.screen > 0 && v.cursorCol < v.cols
  {
    var row := RowAt(v, CursorSeq(v));
    !row.wrapped && TrimEnd(CellsText(row.cells, v.cursorCol, v.cols)) == []
  }

  /** The text of the cursor row between the start of the read and the cursor. */
  function BeforeCursor(v: View, a: nat, col: nat): string
    requires ValidView(v) && v.screen > 0 && v.cursorCol < v.cols
    requires a <= CursorSeq(v)
  {
    CellsText(RowAt(v, CursorSeq(v)).cells, if a == CursorSeq(v) then col else 0, v.cursorCol)
  }

  /**
    A first read to the cursor followed by a read from the cursor it returned gives the text of
    one later read, exactly when no trailing blank before the cursor was trimmed away from
    under text that was written after it.
   */
  lemma ResumingIsExact(v: View, later: View, a: nat, col: nat, cap: nat)
    requires Continues(v, later, a) && BlankFromCursor(v)
    requires a == CursorSeq(v) ==> col <= v.cursorCol
    requires !SeqPage(v, a, col, None, cap).truncated
    requires !SeqPage(later, CursorSeq(v), v.cursorCol, None, cap).truncated
    requires !SeqPage(later, a, col, None, cap).truncated
    ensures var first := SeqPage(v, a, col, None, cap);
      var second := SeqPage(later, first.nextSeq, first.nextCol, None, cap);
      var row := RowAt(later, CursorSeq(v));
      && first.nextSeq == CursorSeq(v) && first.nextCol == v.cursorCol
      && (first.text + second.text == SeqPage(later, a, col, None, cap).text <==>
            || TrimEnd(BeforeCursor(v, a, col)) == BeforeCursor(v, a, col)
            || (!row.wrapped && TrimEnd(CellsText(row.cells, v.cursorCol, v.cols)) == []))
  {
    hide Pieces, Join, TrimEnd, CellsText, Rendered, RowText, Head, Tail, SeqPage, Asked, ReadsRows, PieceAt;
    var k := CursorSeq(v);
    OpenRead(v, a, col, cap);
    OpenRead(later, k, v.cursorCol, cap);
    OpenRead(later, a, col, cap);
    var ps1, ps2, ps := Asked(v, a, col, None), Asked(later, k, v.cursorCol, None), Asked(later, a, col, None);
    var m := k - a;
    SameHeads(v, later, a, col);
    SameTails(v, later, a, col);
    AroundRow(ps1, m);
    AroundRow(ps2, 0);
    AroundRow(ps, m);
    CursorPieces(v, later, a, col);
    CursorRowTexts(RowAt(v, k), RowAt(later, k), if a == k then col else 0, v.cursorCol, v.cols);
    SplitInRow(Head(ps, m), Tail(ps, m), ps1[m].text, ps2[0].text, ps[m].text);
  }

  /** A terminal of one row. */
  function OneRow(row: Row, cursorCol: nat): View { View([row], 1, |row.cells|, 0, 0, cursorCol) }

  lemma OneRowIsWhole(row: Row, cursorCol: nat, col: nat, cap: nat)
    requires |row.cells| > 0 && col <= cursorCol
    ensures var v := OneRow(row, cursorCol);
      && ValidView(v) && CursorSeq(v) == OldestSeq(v) == 0 && GridEnd(v) == 1 && RowAt(v, 0) == row
      && !SeqPage(v, 0, col, None, cap).truncated
  {
    hide Pieces, Join, RowText, JoinLen;
  }

  /** A blank before the cursor was trimmed by the first read and is missing once text follows it. */
  lemma ResumingCanLoseABlank(a: Cell, blank: Cell, b: Cell, cap: nat)
    requires a.c == 'a' && blank.c == ' ' && b.c == 'b' && !a.spacer && !blank.spacer && !b.spacer
    requires Marks(a) == Marks(blank) == Marks(b) == []
    ensures var v, later := OneRow(Row([a, blank, blank], false), 2), OneRow(Row([a, blank, b], false), 2);
      && Continues(v, later, 0) && BlankFromCursor(v)
      && var first := SeqPage(v, 0, 0, None, cap);
         var second := SeqPage(later, first.nextSeq, first.nextCol, None, cap);
         first.text + second.text != SeqPage(later, 0, 0, None, cap).text
  {
    var r, r' := Row([a, blank, blank], false), Row([a, blank, b], false);
    var v, later := OneRow(r, 2), OneRow(r', 2);
    OneRowIsWhole(r, 2, 0, cap);
    OneRowIsWhole(r', 2, 0, cap);
    OneRowIsWhole(r', 2, 2, cap);
    RowTexts(a, blank, b);
    hide SeqPage, CellsText, TrimEnd, OneRow;
    assert r'.cells[..2] == r.cells[..2];
    ResumingIsExact(v, later, 0, 0, cap);
  }

  lemma RowTexts(a: Cell, blank: Cell, b: Cell)
    requires a.c == 'a' && blank.c == ' ' && b.c == 'b' && !a.spacer && !blank.spacer && !b.spacer
    requires Marks(a) == Marks(blank) == Marks(b) == []
    ensures TrimEnd(CellsText([a, blank, blank], 0, 2)) != CellsText([a, blank, blank], 0, 2)
    ensures TrimEnd(CellsText([a, blank, blank], 2, 3)) == [] && TrimEnd(CellsText([a, blank, b], 2, 3)) != []
  {
    hide CellsText, TrimEnd;
    var r, r' := [a, blank, blank], [a, blank, b];
    OneCellText(r, 0);
    OneCellText(r, 1);
    OneCellText(r, 2);
    OneCellText(r', 2);
    CellsTextSplit(r, 0, 1, 2);
    assert CellText(a) == ['a'] && CellText(blank) == [' '] && CellText(b) == ['b'];
    TrimsBlank(['a']);
    TrimsBlank([]);
    assert [] + [' '] == [' '];
    KeepsLetter();
  }

  lemma TrimsBlank(s: string)
    ensures TrimEnd(s + [' ']) == TrimEnd(s) && |TrimEnd(s)| <= |s| && TrimEnd([]) == []
  {
    TrimmedLenPrefix(s, [' '], |s|);
    assert (s + [' '])[..|s|] == s;
  }

  lemma KeepsLetter()
    ensures TrimEnd(['b']) == ['b']
  {
  }

  lemma OneCellText(cells: seq<Cell>, k: nat)
    requires k < |cells|
    ensures CellsText(cells, k, k + 1) == CellText(cells[k])
  {
    assert CellsText(cells, k, k) == [];
  }

  /** An open-ended read that is not cut short returns everything up to the cursor. */
  lemma OpenRead(v: View, a: nat, col: nat, cap: nat)
    requires ValidView(v) && v.screen > 0 && v.cols > 0 && OldestSeq(v) <= a
    requires !After(a, col, CursorSeq(v), v.cursorCol)
    requires !SeqPage(v, a, col, None, cap).truncated
    ensures ReadsRows(v, a, col, None)
    ensures var p := SeqPage(v, a, col, None, cap);
      p.text == Whole(Asked(v, a, col, None)) && p.nextSeq == CursorSeq(v) && p.nextCol == v.cursorCol
  {
    hide Pieces, Join, RowText;
  }

  /** What an open-ended read from a retained row asks for. */
  lemma OpenAsked(v: View, a: nat, col: nat)
    requires ValidView(v) && v.screen > 0 && v.cols > 0 && OldestSeq(v) <= a
    requires !After(a, col, CursorSeq(v), v.cursorCol)
    ensures ReadsRows(v, a, col, None) && |Asked(v, a, col, None)| == CursorSeq(v) - a + 1
  {
    hide RowText, Pieces, PieceAt;
  }

  lemma OpenPiece(v: View, a: nat, col: nat, i: nat)
    requires ValidView(v) && v.screen > 0 && v.cols > 0 && OldestSeq(v) <= a
    requires !After(a, col, CursorSeq(v), v.cursorCol) && a + i <= CursorSeq(v) < GridEnd(v)
    ensures ReadsRows(v, a, col, None) && |Asked(v, a, col, None)| == CursorSeq(v) - a + 1
    ensures var row := RowAt(v, a + i);
      Asked(v, a, col, None)[i]
      == Piece(RowText(row, if i == 0 then Min(col, v.cols - 1) else 0, v.cols - 1), row.wrapped)
  {
    hide RowText, Pieces;
    OpenAsked(v, a, col);
    PieceOf(v, Pos(v, a), col, Pos(v, CursorSeq(v)), v.cols - 1, i);
  }

  /** Where the cursor stands relative to the two views. */
  lemma ContinuesBounds(v: View, later: View, a: nat, col: nat)
    requires Continues(v, later, a) && (a == CursorSeq(v) ==> col <= v.cursorCol)
    ensures ValidView(v) && ValidView(later) && v.cols == later.cols > 0 && v.screen > 0 && later.screen > 0
    ensures OldestSeq(v) <= a <= CursorSeq(v) < GridEnd(v) && OldestSeq(later) <= a
    ensures CursorSeq(v) <= CursorSeq(later) < GridEnd(later)
    ensures !After(a, col, CursorSeq(v), v.cursorCol) && !After(a, col, CursorSeq(later), later.cursorCol)
    ensures !After(CursorSeq(v), v.cursorCol, CursorSeq(later), later.cursorCol) && v.cursorCol < v.cols
  {
  }

  lemma CursorPieces(v: View, later: View, a: nat, col: nat)
    requires Continues(v, later, a) && (a == CursorSeq(v) ==> col <= v.cursorCol)
    ensures var k := CursorSeq(v);
      var m, c0 := k - a, if a == k then col else 0;
      && m < |Asked(v, a, col, None)| && Asked(v, a, col, None)[m].text == RowText(RowAt(v, k), c0, v.cols - 1)
      && m < |Asked(later, a, col, None)|
      && Asked(later, a, col, None)[m].text == RowText(RowAt(later, k), c0, v.cols - 1)
      && 0 < |Asked(later, k, v.cursorCol, None)|
      && Asked(later, k, v.cursorCol, None)[0].text == RowText(RowAt(later, k), v.cursorCol, v.cols - 1)
  {
    hide RowText, Pieces, PieceAt, Asked, ReadsRows, Continues, RowAt;
    ContinuesBounds(v, later, a, col);
    OpenPiece(v, a, col, CursorSeq(v) - a);
    OpenPiece(later, a, col, CursorSeq(v) - a);
    OpenPiece(later, CursorSeq(v), v.cursorCol, 0);
  }

  lemma SamePiece(v: View, later: View, a: nat, col: nat, i: nat)
    requires Continues(v, later, a) && (a == CursorSeq(v) ==> col <= v.cursorCol) && i < CursorSeq(v) - a
    ensures ReadsRows(v, a, col, None) && ReadsRows(later, a, col, None)
    ensures i < |Asked(v, a, col, None)| && i < |Asked(later, a, col, None)|
    ensures Asked(v, a, col, None)[i] == Asked(later, a, col, None)[i]
  {
    hide RowText, Pieces, PieceAt, Asked, ReadsRows;
    ContinuesBounds(v, later, a, col);
    OpenPiece(v, a, col, i);
    OpenPiece(later, a, col, i);
    assert RowAt(later, a + i) == RowAt(v, a + i);
  }

  lemma SameHeads(v: View, later: View, a: nat, col: nat)
    requires Continues(v, later, a) && (a == CursorSeq(v) ==> col <= v.cursorCol)
    ensures var m, ps1, ps := CursorSeq(v) - a, Asked(v, a, col, None), Asked(later, a, col, None);
      m + 1 == |ps1| && m < |ps| && Head(ps1, m) == Head(ps, m) && Tail(ps1, m) == []
  {
    hide RowText, Pieces, PieceAt, Join, Asked, ReadsRows, Newline, Continues, RowAt;
    ContinuesBounds(v, later, a, col);
    OpenAsked(v, a, col);
    OpenAsked(later, a, col);
    var m, ps1, ps := CursorSeq(v) - a, Asked(v, a, col, None), Asked(later, a, col, None);
    forall i | 0 <= i < m ensures ps1[i] == ps[i] {
      SamePiece(v, later, a, col, i);
    }
    JoinPrefix(ps1, ps, m);
  }

  lemma SameTails(v: View, later: View, a: nat, col: nat)
    requires Continues(v, later, a) && (a == CursorSeq(v) ==> col <= v.cursorCol)
    ensures var m, ps := CursorSeq(v) - a, Asked(later, a, col, None);
      var ps2 := Asked(later, CursorSeq(v), v.cursorCol, None);
      0 < |ps2| && m < |ps| && Head(ps2, 0) == [] && Tail(ps2, 0) == Tail(ps, m)
  {
    hide RowText, Pieces, PieceAt, Join, Asked, ReadsRows, Newline, Continues, RowAt;
    ContinuesBounds(v, later, a, col);
    OpenAsked(later, a, col);
    OpenAsked(later, CursorSeq(v), v.cursorCol);
    var m, ps := CursorSeq(v) - a, Asked(later, a, col, None);
    var ps2 := Asked(later, CursorSeq(v), v.cursorCol, None);
    forall i | 0 <= i < |ps2| ensures ps2[i].wrapped == ps[m + i].wrapped && (i > 0 ==> ps2[i] == ps[m + i]) {
      OpenPiece(later, a, col, m + i);
      OpenPiece(later, CursorSeq(v), v.cursorCol, i);
    }
    assert ps2[1..] == ps[m + 1..];
    SameNewline(ps2[0], ps[m]);
  }

  lemma SameNewline(p: Piece, p': Piece)
    requires p.wrapped == p'.wrapped
    ensures Newline(p) == Newline(p')
  {
  }

  /** What the three reads see of the cursor row. */
  lemma CursorRowTexts(before: Row, after: Row, c0: nat, k: nat, cols: nat)
    requires |before.cells| == |after.cells| == cols && c0 <= k < cols && !before.wrapped
    requires before.cells[..k] == after.cells[..k]
    requires TrimEnd(CellsText(before.cells, k, cols)) == []
    ensures RowText(before, c0, cols - 1) + RowText(after, k, cols - 1) == RowText(after, c0, cols - 1) <==>
            (|| TrimEnd(CellsText(before.cells, c0, k)) == CellsText(before.cells, c0, k)
             || (!after.wrapped && TrimEnd(CellsText(after.cells, k, cols)) == []))
  {
    var head := CellsText(before.cells, c0, k);
    CellsTextSame(before.cells, after.cells, c0, k);
    CellsTextSplit(before.cells, c0, k, cols);
    CellsTextSplit(after.cells, c0, k, cols);
    TrimEndConcat(head, CellsText(before.cells, k, cols));
    RenderInTwoParts(head, CellsText(after.cells, k, cols), after.wrapped);
  }
}
