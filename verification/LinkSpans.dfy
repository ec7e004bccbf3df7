/**
  Hyperlink spans in the browser renderer: all the cells one link covers, across soft-wrapped
  rows, found by searching outwards from the cell under the pointer.
*/
module LinkSpans {
  import opened RendererState

  /** From a first to a last cell, both included, reading across rows. */
  datatype Span = Span(row0: nat, col0: nat, row1: nat, col1: nat)

  datatype Segment = Segment(row: nat, first: nat, last: nat)

  predicate Before(r: nat, c: nat, r': nat, c': nat) { r < r' || (r == r' && c <= c') }

  predicate InBounds(s: State, span: Span) {
    && span.row0 < s.rows && span.col0 < s.cols && span.row1 < s.rows && span.col1 < s.cols
    && Before(span.row0, span.col0, span.row1, span.col1)
  }

  predicate Contains(s: State, span: Span, r: nat, c: nat) {
    c < s.cols && Before(span.row0, span.col0, r, c) && Before(r, c, span.row1, span.col1)
  }

  /** Every cell of the span carries the link, and every row but the last wraps. */
  ghost predicate Covers(s: State, id: nat, span: Span)
    requires Sized(s)
  {
    && InBounds(s, span)
    && (forall r, c :: Contains(s, span, r, c) ==> LinkId(s, r, c) == id)
    && (forall r :: span.row0 <= r < span.row1 ==> IsWrapped(s, r))
  }

  /** The span could not be made longer at its start. */
  predicate StartsThere(s: State, id: nat, span: Span)
    requires Sized(s) && s.cols > 0
  {
    if span.col0 > 0 then LinkId(s, span.row0, span.col0 - 1) != id
    else span.row0 == 0 || !IsWrapped(s, span.row0 - 1) || LinkId(s, span.row0 - 1, s.cols - 1) != id
  }

  predicate EndsThere(s: State, id: nat, span: Span)
    requires Sized(s) && s.cols > 0
  {
    if span.col1 < s.cols - 1 then LinkId(s, span.row1, span.col1 + 1) != id
    else span.row1 + 1 >= s.rows || !IsWrapped(s, span.row1) || LinkId(s, span.row1 + 1, 0) != id
  }

  /** A maximal run of cells carrying one link. */
  ghost predicate IsLinkSpan(s: State, id: nat, span: Span)
    requires Sized(s)
  {
    Covers(s, id, span) && StartsThere(s, id, span) && EndsThere(s, id, span)
  }

  /** The part of a span on one of its rows. */
  function SegmentAt(s: State, span: Span, i: nat): Segment
    requires s.cols > 0
  {
    var r := span.row0 + i;
    Segment(r, if i == 0 then span.col0 else 0, if r == span.row1 then span.col1 else s.cols - 1)
  }

  function Segments(s: State, span: Span): (segments: seq<Segment>)
    requires s.cols > 0 && span.row0 <= span.row1
    ensures |segments| == span.row1 - span.row0 + 1
    ensures forall i :: 0 <= i < |segments| ==> segments[i] == SegmentAt(s, span, i)
  {
    seq(span.row1 - span.row0 + 1, i requires 0 <= i => SegmentAt(s, span, i))
  }

  /** A segment of the list holds the cell. */
  predicate InSegments(segments: seq<Segment>, r: nat, c: nat) {
    exists i :: 0 <= i < |segments| && segments[i].row == r && segments[i].first <= c <= segments[i].last
  }

  /** One segment to a row, top to bottom, and together exactly the cells of the span. */
  lemma SegmentsAreTheCells(s: State, span: Span, r: nat, c: nat)
    requires InBounds(s, span)
    ensures InSegments(Segments(s, span), r, c) <==> Contains(s, span, r, c)
    ensures forall i :: 0 <= i < |Segments(s, span)| ==>
      Segments(s, span)[i].row == span.row0 + i && Segments(s, span)[i].first <= Segments(s, span)[i].last < s.cols
  {
    var segments := Segments(s, span);
    if Contains(s, span, r, c) {
      assert segments[r - span.row0].row == r;
    }
  }

  method LinkSegments(s: State, row: nat, col: nat) returns (segments: seq<Segment>)
    requires Sized(s)
    ensures segments == [] <==> LinkId(s, row, col) == 0
    ensures LinkId(s, row, col) != 0 ==>
      exists span ::
        IsLinkSpan(s, LinkId(s, row, col), span) && Contains(s, span, row, col) && segments == Segments(s, span)
    ensures LinkId(s, row, col) != 0 ==> InSegments(segments, row, col)
  {
    var index := LinkIndex(s, row, col);
    if index.None? {
      return [];
    }
    var id := if index.value < |s.cellLinks| then s.cellLinks[index.value] else 0;
    if id == 0 || s.cols == 0 {
      return [];
    }
    var startRow, startCol := FindStart(s, id, row, col);
    var endCol;
    segments, endCol := CollectSegments(s, id, startRow, startCol, row, col);
    ghost var span := Span(startRow, startCol, startRow + |segments| - 1, endCol);
    assert IsLinkSpan(s, id, span) && Contains(s, span, row, col) && segments == Segments(s, span);
    SegmentsAreTheCells(s, span, row, col);
  }

  /** The backward search. */
  method FindStart(s: State, id: nat, row: nat, col: nat) returns (startRow: nat, startCol: nat)
    requires Sized(s) && row < s.rows && col < s.cols && LinkId(s, row, col) == id
    ensures Covers(s, id, Span(startRow, startCol, row, col)) && StartsThere(s, id, Span(startRow, startCol, row, col))
  {
    hide LinkId, IsWrapped;
    var lastCol := s.cols - 1;
    startRow, startCol := row, col;
    while true
      invariant Covers(s, id, Span(startRow, startCol, row, col))
      decreases startRow
    {
      while startCol > 0 && LinkId(s, startRow, startCol - 1) == id
        invariant Covers(s, id, Span(startRow, startCol, row, col))
        decreases startCol
      {
        startCol := startCol - 1;
      }
      if startCol != 0 || startRow == 0 {
        break;
      }
      var previous := startRow - 1;
      if !IsWrapped(s, previous) || LinkId(s, previous, lastCol) != id {
        break;
      }
      startRow, startCol := previous, lastCol;
    }
  }

  /** The forward walk, from the start found; it passes the queried cell on its way. */
  method CollectSegments(s: State, id: nat, startRow: nat, startCol: nat, ghost row: nat, ghost col: nat)
    returns (segments: seq<Segment>, end: nat)
    requires Sized(s) && Covers(s, id, Span(startRow, startCol, row, col))
    ensures segments != [] && Covers(s, id, Span(startRow, startCol, startRow + |segments| - 1, end))
    ensures EndsThere(s, id, Span(startRow, startCol, startRow + |segments| - 1, end))
    ensures Contains(s, Span(startRow, startCol, startRow + |segments| - 1, end), row, col)
    ensures segments == Segments(s, Span(startRow, startCol, startRow + |segments| - 1, end))
  {
    hide LinkId, IsWrapped;
    var lastCol := s.cols - 1;
    segments := [];
    var currentRow, segmentStart := startRow, startCol;
    while true
      invariant currentRow == startRow + |segments| < s.rows
      invariant segmentStart == if segments == [] then startCol else 0
      invariant Covers(s, id, Span(startRow, startCol, currentRow, segmentStart))
      invariant forall i :: 0 <= i < |segments| ==>
          segments[i] == SegmentAt(s, Span(startRow, startCol, currentRow, segmentStart), i)
      decreases s.rows - currentRow
    {
      end := segmentStart;
      while end < lastCol && LinkId(s, currentRow, end + 1) == id
        invariant segmentStart <= end <= lastCol
        invariant Covers(s, id, Span(startRow, startCol, currentRow, end))
        decreases lastCol - end
      {
        end := end + 1;
      }
      segments := segments + [Segment(currentRow, segmentStart, end)];
      if end != lastCol || currentRow + 1 >= s.rows || !IsWrapped(s, currentRow) || LinkId(s, currentRow + 1, 0) != id {
        break;
      }
      currentRow, segmentStart := currentRow + 1, 0;
    }
    EndsNoEarlier(s, id, Span(startRow, startCol, row, col),
        Span(startRow, startCol, currentRow, end), startRow, startCol);
  }

  /** Two maximal runs of a link that share a cell are the same run. */
  lemma SpanIsUnique(s: State, id: nat, a: Span, b: Span, r: nat, c: nat)
    requires Sized(s) && IsLinkSpan(s, id, a) && IsLinkSpan(s, id, b)
    requires Contains(s, a, r, c) && Contains(s, b, r, c)
    ensures a == b
  {
    hide LinkId, IsWrapped;
    StartsNoLater(s, id, a, b, r, c);
    StartsNoLater(s, id, b, a, r, c);
    EndsNoEarlier(s, id, a, b, r, c);
    EndsNoEarlier(s, id, b, a, r, c);
  }

  lemma StartsNoLater(s: State, id: nat, a: Span, b: Span, r: nat, c: nat)
    requires Sized(s) && Covers(s, id, a) && IsLinkSpan(s, id, b)
    requires Contains(s, a, r, c) && Contains(s, b, r, c)
    ensures Before(b.row0, b.col0, a.row0, a.col0)
  {
    hide LinkId, IsWrapped;
    if b.col0 > 0 {
      assert !Contains(s, a, b.row0, b.col0 - 1);
    } else if b.row0 > 0 {
      assert !Contains(s, a, b.row0 - 1, s.cols - 1);
    }
  }

  lemma EndsNoEarlier(s: State, id: nat, a: Span, b: Span, r: nat, c: nat)
    requires Sized(s) && Covers(s, id, a) && Covers(s, id, b) && EndsThere(s, id, b)
    requires Contains(s, a, r, c) && Contains(s, b, r, c)
    ensures Before(a.row1, a.col1, b.row1, b.col1)
  {
    hide LinkId, IsWrapped;
    if b.col1 < s.cols - 1 {
      assert !Contains(s, a, b.row1, b.col1 + 1);
    } else {
      assert !Contains(s, a, b.row1 + 1, 0);
    }
  }

  /** Every cell of a span is answered with that same span. */
  lemma EveryCellAnswersAlike(s: State, id: nat, span: Span, span': Span, r: nat, c: nat, r': nat, c': nat)
    requires Sized(s) && id != 0 && IsLinkSpan(s, id, span) && Contains(s, span, r, c) && Contains(s, span, r', c')
    requires IsLinkSpan(s, LinkId(s, r', c'), span') && Contains(s, span', r', c')
    ensures LinkId(s, r, c) == LinkId(s, r', c') == id && Segments(s, span') == Segments(s, span)
  {
    assert LinkId(s, r', c') == id;
    SpanIsUnique(s, id, span, span', r', c');
  }
}
