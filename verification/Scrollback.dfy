/**
  Sequence numbers for terminal lines.

  The driver never sees a line being scrolled away.  It parks the grid's display offset at a
  probe position before it hands a chunk of output to the emulator, reads the offset
  afterwards, and combines that reading with the growth of the history into `rotatedLines`.
  A line's sequence number is `rotatedLines` plus its grid row.

  The emulator is modelled by the contract the driver's comments state.  Every line carries
  the absolute index it was born with, which nothing ever rewrites, so "the counter is right"
  has a meaning that does not mention the counter.
*/
module Scrollback {
  import opened Common
  import opened GridRows

  /** A line of the primary grid: its birth index and its current contents. */
  datatype Line = Line(index: nat, row: Row)

  /** The primary grid: lines above the viewport, the viewport, and the display offset. */
  datatype Grid = Grid(limit: nat, history: seq<Line>, screen: seq<Line>, offset: nat)

  /** The emulator.  The alternate grid has neither history nor display offset. */
  datatype Term = Term(primary: Grid, onAlt: bool)

  /** What one chunk of output makes the emulator do. */
  datatype Op =
    | ScrollUp(blank: Row)
    | Write(r: nat, content: Row)
    | EnterAlt
    | LeaveAlt

  /** A height change: `pushed` viewport rows go to the history, or rows are pulled back out. */
  datatype Resize = Shrink(rows: nat, pushed: nat) | Grow(added: nat)

  datatype Driver = Driver(term: Term, scrolled: nat, rotated: nat)

  /**
    One call on the driver; `crossed` is whether the mode tracker saw the chunk change screens,
    `gridOffset` wherever the emulator leaves its display offset.
   */
  datatype Event = Output(chunk: seq<Op>, crossed: bool) | Resized(resize: Resize, gridOffset: nat, blank: Row)

  const SCROLL_PROBE: nat := 1

  // ---------------------------------------------------------------------------------------
  // The emulator's contract
  // ---------------------------------------------------------------------------------------

  function Lines(g: Grid): seq<Line> { g.history + g.screen }

  /** The true index of the top viewport line. */
  function Top(g: Grid): nat
    requires |g.screen| > 0
  {
    g.screen[0].index
  }

  /** Lines are numbered consecutively, the history is within its limit, the offset within it. */
  predicate Valid(g: Grid): (valid: bool)
    ensures valid ==> |g.screen| > 0 && |g.history| <= g.limit && g.offset <= |g.history|
  {
    && |g.screen| > 0
    && |g.history| <= g.limit
    && g.offset <= |g.history|
    && forall i :: 0 <= i < |Lines(g)| ==> Lines(g)[i].index == Top(g) - |g.history| + i
  }

  function ScrollOne(g: Grid, blank: Row): Grid
    requires |g.screen| > 0
  {
    var kept := g.history + [g.screen[0]];
    Grid(g.limit,
         if |kept| > g.limit then kept[1..] else kept,
         g.screen[1..] + [Line(g.screen[|g.screen| - 1].index + 1, blank)],
         if g.offset == 0 then 0 else Min(g.offset + 1, g.limit))
  }

  function WriteRow(g: Grid, r: nat, content: Row): Grid {
    if r < |g.screen| then g.(screen := g.screen[r := g.screen[r].(row := content)]) else g
  }

  function Apply(t: Term, op: Op): Term
    requires |t.primary.screen| > 0
  {
    match op
    case EnterAlt => t.(onAlt := true)
    case LeaveAlt => t.(onAlt := false)
    case ScrollUp(blank) => if t.onAlt then t else t.(primary := ScrollOne(t.primary, blank))
    case Write(r, content) => if t.onAlt then t else t.(primary := WriteRow(t.primary, r, content))
  }

  function ApplyAll(t: Term, ops: seq<Op>): (t': Term)
    requires |t.primary.screen| > 0
    ensures |t'.primary.screen| == |t.primary.screen|
    decreases |ops|
  {
    if ops == [] then t else ApplyAll(Apply(t, ops[0]), ops[1..])
  }

  /** How many lines a chunk scrolls off the primary viewport. */
  function PrimaryScrolls(onAlt: bool, ops: seq<Op>): nat
    decreases |ops|
  {
    if ops == [] then 0
    else match ops[0]
      case EnterAlt => PrimaryScrolls(true, ops[1..])
      case LeaveAlt => PrimaryScrolls(false, ops[1..])
      case ScrollUp(_) => (if onAlt then 0 else 1) + PrimaryScrolls(onAlt, ops[1..])
      case Write(_, _) => PrimaryScrolls(onAlt, ops[1..])
  }

  function ScrollMany(g: Grid, n: nat, blank: Row): (g': Grid)
    requires |g.screen| > 0
    ensures |g'.screen| == |g.screen|
    decreases n
  {
    if n == 0 then g else ScrollMany(ScrollOne(g, blank), n - 1, blank)
  }

  /** Blank lines numbered from `first`. */
  function BlankLines(first: nat, n: nat, blank: Row): seq<Line> {
    seq(n, i requires 0 <= i => Line(first + i, blank))
  }

  predicate ValidResize(g: Grid, r: Resize) {
    match r
    case Shrink(rows, pushed) => 0 < rows && rows + pushed <= |g.screen|
    case Grow(_) => true
  }

  function ResizeGrid(g: Grid, r: Resize, gridOffset: nat, blank: Row): Grid
    requires |g.screen| > 0 && ValidResize(g, r)
  {
    match r
    case Shrink(rows, pushed) =>
      var s := ScrollMany(g, pushed, blank);
      s.(screen := s.screen[..rows], offset := Min(gridOffset, |s.history|))
    case Grow(added) =>
      var k := Min(|g.history|, added);
      var h := |g.history| - k;
      var last := g.screen[|g.screen| - 1].index;
      Grid(g.limit, g.history[..h],
           g.history[h..] + g.screen + BlankLines(last + 1, added - k, blank),
           Min(gridOffset, h))
  }

  /** Rows a resize moves from the viewport into the history; negative when it pulls them out. */
  function RowsMoved(g: Grid, r: Resize): int {
    match r
    case Shrink(_, pushed) => pushed
    case Grow(added) => -Min(|g.history|, added)
  }

  // ---------------------------------------------------------------------------------------
  // The driver
  // ---------------------------------------------------------------------------------------

  function HistoryLen(t: Term): nat { if t.onAlt then 0 else |t.primary.history| }

  function DisplayOffset(t: Term): nat { if t.onAlt then 0 else t.primary.offset }

  /** `Grid::scroll_display` with a delta: the offset is clamped to the history. */
  function ScrollDisplay(t: Term, delta: int): Term {
    if t.onAlt then t
    else
      var moved := t.primary.offset + delta;
      t.(primary := t.primary.(offset := if moved < 0 then 0 else Min(moved, |t.primary.history|)))
  }

  function ArmProbe(t: Term): Term {
    if DisplayOffset(t) == SCROLL_PROBE then t else ScrollDisplay(t, SCROLL_PROBE - DisplayOffset(t))
  }

  function ReadProbe(d: Driver, historyBefore: nat, crossed: bool): Driver {
    var probed := Monus(DisplayOffset(d.term), SCROLL_PROBE);
    var grown := if crossed then 0 else Monus(HistoryLen(d.term), historyBefore);
    d.(scrolled := d.scrolled + probed, rotated := d.rotated + if probed >= grown then probed else grown)
  }

  function ProcessChunk(d: Driver, chunk: seq<Op>, crossed: bool): Driver
    requires |d.term.primary.screen| > 0
  {
    ReadProbe(d.(term := ApplyAll(ArmProbe(d.term), chunk)), HistoryLen(d.term), crossed)
  }

  function ProcessResize(d: Driver, r: Resize, gridOffset: nat, blank: Row): Driver
    requires |d.term.primary.screen| > 0 && ValidResize(d.term.primary, r)
  {
    var resized := d.term.(primary := ResizeGrid(d.term.primary, r, gridOffset, blank));
    var delta := HistoryLen(resized) - HistoryLen(d.term);
    Driver(ArmProbe(resized), d.scrolled,
           if delta >= 0 then d.rotated + delta else Monus(d.rotated, -delta))
  }

  predicate ValidEvent(d: Driver, e: Event) {
    e.Resized? ==> ValidResize(d.term.primary, e.resize)
  }

  function Step(d: Driver, e: Event): Driver
    requires |d.term.primary.screen| > 0 && ValidEvent(d, e)
  {
    match e
    case Output(chunk, crossed) => ProcessChunk(d, chunk, crossed)
    case Resized(r, gridOffset, blank) => ProcessResize(d, r, gridOffset, blank)
  }

  function NewDriver(rows: nat, limit: nat, blank: Row): Driver
    requires rows > 0
  {
    Driver(Term(Grid(limit, [], BlankLines(0, rows, blank), 0), false), 0, 0)
  }

  /** The driver object: each method is the corresponding step of the value above. */
  class TerminalDriver {
    var term: Term
    var scrolledLines: nat
    var rotatedLines: nat

    function View(): Driver
      reads this
    {
      Driver(term, scrolledLines, rotatedLines)
    }

    constructor (rows: nat, limit: nat, blank: Row)
      requires rows > 0
      ensures View() == NewDriver(rows, limit, blank) && Valid(term.primary) && InStep(View())
    {
      term := Term(Grid(limit, [], BlankLines(0, rows, blank), 0), false);
      scrolledLines, rotatedLines := 0, 0;
    }

    method ArmScrollProbe()
      modifies this`term
      ensures term == ArmProbe(old(term))
      ensures old(Valid(term.primary)) ==>
        && Valid(term.primary) && term.onAlt == old(term.onAlt)
        && term.primary == old(term.primary).(offset := Armed(old(View())))
    {
      if Valid(term.primary) {
        ArmEffect(term);
      }
      var current := DisplayOffset(term);
      if current == SCROLL_PROBE {
        return;
      }
      term := ScrollDisplay(term, SCROLL_PROBE - current);
    }

    method ReadScrollProbe(historyBefore: nat, crossedAltScreen: bool)
      modifies this`scrolledLines, this`rotatedLines
      ensures View() == ReadProbe(old(View()), historyBefore, crossedAltScreen)
      ensures scrolledLines >= old(scrolledLines)
      ensures rotatedLines - old(rotatedLines)
           == if crossedAltScreen then scrolledLines - old(scrolledLines)
              else Max(scrolledLines - old(scrolledLines), HistoryLen(term) - historyBefore)
    {
      var probed := Monus(DisplayOffset(term), SCROLL_PROBE);
      scrolledLines := scrolledLines + probed;
      var grown := 0;
      if !crossedAltScreen {
        grown := Monus(HistoryLen(term), historyBefore);
      }
      rotatedLines := rotatedLines + if probed >= grown then probed else grown;
    }

    /** The tracker's alternate-screen flag before and after the chunk decides what counts as crossing. */
    method Process(chunk: seq<Op>, altScreenBefore: bool, altScreenAfter: bool)
      requires Valid(term.primary)
      modifies this
      ensures View() == ProcessChunk(old(View()), chunk, altScreenBefore != altScreenAfter)
      ensures Valid(term.primary)
      ensures old(InStep(View())) ==>
        (InStep(View()) <==> LawfulChunk(old(View()), chunk, altScreenBefore != altScreenAfter))
    {
      ProcessKeepsStep(View(), chunk, altScreenBefore != altScreenAfter);
      var historyBefore := HistoryLen(term);
      ArmScrollProbe();
      term := ApplyAll(term, chunk);
      ReadScrollProbe(historyBefore, altScreenAfter != altScreenBefore);
    }

    method Resize(r: Resize, gridOffset: nat, blank: Row)
      requires Valid(term.primary) && ValidResize(term.primary, r)
      modifies this
      ensures View() == ProcessResize(old(View()), r, gridOffset, blank)
      ensures Valid(term.primary)
      ensures old(InStep(View())) ==>
        (InStep(View()) <==> LawfulResize(old(View()), r, gridOffset))
    {
      ResizeKeepsStep(View(), r, gridOffset, blank);
      var historyBefore := HistoryLen(term);
      term := term.(primary := ResizeGrid(term.primary, r, gridOffset, blank));
      ArmScrollProbe();
      var delta := HistoryLen(term) - historyBefore;
      if delta >= 0 {
        rotatedLines := rotatedLines + delta;
      } else {
        rotatedLines := Monus(rotatedLines, -delta);
      }
    }
  }

  // ---------------------------------------------------------------------------------------
  // When the counter is right
  // ---------------------------------------------------------------------------------------

  /**
    The counter is in step with the primary grid.  While the alternate screen hides that grid
    the motion still owed is what its parked display offset shows.
   */
  predicate InStep(d: Driver)
    requires |d.term.primary.screen| > 0
  {
    Top(d.term.primary) - d.rotated == if d.term.onAlt then Monus(d.term.primary.offset, SCROLL_PROBE) else 0
  }

  /** The display offset a chunk starts from on the primary grid. */
  function Armed(d: Driver): nat {
    if d.term.onAlt then d.term.primary.offset else Min(1, |d.term.primary.history|)
  }

  /**
    Exactly the chunks the counter follows.  With the probe armed the offset must not run into
    the scrollback limit; unarmed, growth can measure what fits in the history, but only on a
    chunk that starts and ends on the primary screen and is not taken for a crossing.  A return
    from the alternate screen that is not taken for one is measured by the whole history.
   */
  predicate LawfulChunk(d: Driver, chunk: seq<Op>, crossed: bool)
    requires |d.term.primary.screen| > 0
  {
    var g, n, toAlt := d.term.primary, PrimaryScrolls(d.term.onAlt, chunk), AltAfter(d.term.onAlt, chunk);
    if d.term.onAlt && !toAlt && !crossed then Monus(g.offset, SCROLL_PROBE) + n == Min(|g.history| + n, g.limit)
    else if Armed(d) > 0 then Armed(d) + n <= g.limit
    else if !d.term.onAlt && !toAlt && !crossed then n <= g.limit
    else n == 0
  }

  function AltAfter(onAlt: bool, ops: seq<Op>): bool
    decreases |ops|
  {
    if ops == [] then onAlt
    else AltAfter(if ops[0].EnterAlt? then true else if ops[0].LeaveAlt? then false else onAlt, ops[1..])
  }

  /**
    Exactly the resizes the counter follows: on the primary screen, those that do not push
    lines off the far end of the history; on the alternate screen, where no history delta is
    visible, those after which the hidden grid's probe reading moved by the rows moved.
   */
  predicate LawfulResize(d: Driver, r: Resize, gridOffset: nat)
    requires |d.term.primary.screen| > 0 && ValidResize(d.term.primary, r)
  {
    var g := d.term.primary;
    if !d.term.onAlt then r.Shrink? ==> |g.history| + r.pushed <= g.limit
    else
      var historyAfter := Min(|g.history| + RowsMoved(g, r), g.limit);
      Monus(Min(gridOffset, historyAfter), SCROLL_PROBE) == Monus(g.offset, SCROLL_PROBE) + RowsMoved(g, r)
  }

  predicate Lawful(d: Driver, e: Event)
    requires |d.term.primary.screen| > 0 && ValidEvent(d, e)
  {
    match e
    case Output(chunk, crossed) => LawfulChunk(d, chunk, crossed)
    case Resized(r, gridOffset, _) => LawfulResize(d, r, gridOffset)
  }

  lemma ScrollOneEffect(g: Grid, blank: Row)
    requires Valid(g)
    ensures var g' := ScrollOne(g, blank);
      && Valid(g') && Top(g') == Top(g) + 1 && g'.limit == g.limit
      && |g'.history| == Min(|g.history| + 1, g.limit)
      && g'.offset == (if g.offset == 0 then 0 else Min(g.offset + 1, g.limit))
  {
    var g' := ScrollOne(g, blank);
    var before := Lines(g) + [Line(Top(g) + |g.screen|, blank)];
    assert Lines(g)[|Lines(g)| - 1].index == Top(g) + |g.screen| - 1;
    assert Lines(g') == if |g.history| + 1 > g.limit then before[1..] else before;
    assert before[|g.history| + 1] == g'.screen[0];
  }

  lemma ApplyKeepsValid(t: Term, op: Op)
    requires Valid(t.primary)
    ensures Valid(Apply(t, op).primary)
    ensures op.Write? ==> var g, g' := t.primary, Apply(t, op).primary;
      Top(g') == Top(g) && g'.history == g.history && g'.offset == g.offset && g'.limit == g.limit
  {
    match op
    case ScrollUp(blank) => ScrollOneEffect(t.primary, blank);
    case Write(r, content) =>
      var g' := Apply(t, op).primary;
      assert forall i :: 0 <= i < |Lines(g')| ==> Lines(g')[i].index == Lines(t.primary)[i].index;
    case _ =>
  }

  /** What one operation does to the grid's counters. */
  lemma OneOp(t: Term, op: Op)
    requires Valid(t.primary)
    ensures var t', n := Apply(t, op), if op.ScrollUp? && !t.onAlt then 1 else 0;
      && Valid(t'.primary) && t'.primary.limit == t.primary.limit
      && |t.primary.screen| > 0 && |t'.primary.screen| > 0
      && t'.onAlt == (if op.EnterAlt? then true else if op.LeaveAlt? then false else t.onAlt)
      && Top(t'.primary) == Top(t.primary) + n
      && |t.primary.history| <= t.primary.limit && t.primary.offset <= t.primary.limit
      && |t'.primary.history| == Min(|t.primary.history| + n, t.primary.limit)
      && t'.primary.offset == (if t.primary.offset == 0 then 0 else Min(t.primary.offset + n, t.primary.limit))
  {
    ApplyKeepsValid(t, op);
    if op.ScrollUp? {
      ScrollOneEffect(t.primary, op.blank);
    }
    hide ScrollOne, WriteRow;
  }

  /** A whole chunk moves the viewport by its primary scrolls, saturating history and offset. */
  lemma {:induction false} ApplyAllEffect(t: Term, ops: seq<Op>)
    requires Valid(t.primary)
    ensures var t', n := ApplyAll(t, ops), PrimaryScrolls(t.onAlt, ops);
      && Valid(t'.primary) && t'.onAlt == AltAfter(t.onAlt, ops)
      && t'.primary.limit == t.primary.limit
      && Top(t'.primary) == Top(t.primary) + n
      && |t'.primary.history| == Min(|t.primary.history| + n, t.primary.limit)
      && t'.primary.offset == (if t.primary.offset == 0 then 0 else Min(t.primary.offset + n, t.primary.limit))
    decreases |ops|
  {
    hide Valid, Top, ScrollOne, WriteRow, Apply;
    if ops != [] {
      OneOp(t, ops[0]);
      ApplyAllEffect(Apply(t, ops[0]), ops[1..]);
    }
  }

  /** Arming leaves the lines alone and parks the offset at the probe, or at 0 without history. */
  lemma ArmEffect(t: Term)
    requires Valid(t.primary)
    ensures var t' := ArmProbe(t);
      && Valid(t'.primary) && t'.onAlt == t.onAlt
      && t'.primary == t.primary.(offset := if t.onAlt then t.primary.offset else Min(1, |t.primary.history|))
  {
    assert Lines(ArmProbe(t).primary) == Lines(t.primary);
  }

  /** One chunk keeps the counter in step exactly when the chunk is lawful. */
  lemma ProcessKeepsStep(d: Driver, chunk: seq<Op>, crossed: bool)
    requires Valid(d.term.primary)
    ensures Valid(ProcessChunk(d, chunk, crossed).term.primary)
    ensures InStep(d) ==> (InStep(ProcessChunk(d, chunk, crossed)) <==> LawfulChunk(d, chunk, crossed))
  {
    hide Valid, Lines, ApplyAll, PrimaryScrolls, AltAfter;
    ArmEffect(d.term);
    ApplyAllEffect(ArmProbe(d.term), chunk);
  }

  /** Whether the chunk really leaves the other screen showing. */
  predicate Crosses(d: Driver, chunk: seq<Op>) { d.term.onAlt != AltAfter(d.term.onAlt, chunk) }

  /**
    When a tracker that is wrong about crossing does harm: a chunk on the primary screen taken
    for a crossing is still followed unless its motion is seen by growth alone; a return taken
    for none is followed only if what is owed happens to be the whole history.
   */
  lemma WrongTracker(d: Driver, chunk: seq<Op>)
    requires Valid(d.term.primary)
    ensures var g, n, wrong := d.term.primary, PrimaryScrolls(d.term.onAlt, chunk), !Crosses(d, chunk);
      && (AltAfter(d.term.onAlt, chunk) ==>
            (LawfulChunk(d, chunk, wrong) <==> LawfulChunk(d, chunk, !wrong)))
      && (!d.term.onAlt && !AltAfter(false, chunk) ==>
            (LawfulChunk(d, chunk, wrong) <==> LawfulChunk(d, chunk, !wrong) && (g.history != [] || n == 0)))
      && (d.term.onAlt && !AltAfter(true, chunk) ==>
            (LawfulChunk(d, chunk, wrong)
             <==> Monus(g.offset, SCROLL_PROBE) + n == Min(|g.history| + n, g.limit)))
  {
    hide PrimaryScrolls, AltAfter;
  }

  /** With nothing scrolled meanwhile such a return is followed exactly when there is no history. */
  lemma MissedReturn(d: Driver, chunk: seq<Op>)
    requires Valid(d.term.primary) && d.term.onAlt && !AltAfter(true, chunk) && PrimaryScrolls(true, chunk) == 0
    ensures LawfulChunk(d, chunk, false) <==> d.term.primary.history == []
  {
    hide PrimaryScrolls, AltAfter;
  }

  lemma {:induction false} ScrollManyEffect(g: Grid, n: nat, blank: Row)
    requires Valid(g)
    ensures var g' := ScrollMany(g, n, blank);
      && Valid(g') && Top(g') == Top(g) + n && g'.limit == g.limit
      && |g'.history| == Min(|g.history| + n, g.limit)
    decreases n
  {
    if n > 0 {
      ScrollOneEffect(g, blank);
      ScrollManyEffect(ScrollOne(g, blank), n - 1, blank);
    }
  }

  /** Cutting rows off the bottom keeps the numbering. */
  lemma CutEffect(g: Grid, rows: nat, offset: nat)
    requires Valid(g) && 0 < rows <= |g.screen| && offset <= |g.history|
    ensures var g' := g.(screen := g.screen[..rows], offset := offset); Valid(g') && Top(g') == Top(g)
  {
    var g' := g.(screen := g.screen[..rows], offset := offset);
    assert forall i :: 0 <= i < |Lines(g')| ==> Lines(g')[i] == Lines(g)[i];
  }

  lemma GrownLines(g: Grid, added: nat, gridOffset: nat, blank: Row)
    requires Valid(g)
    ensures var g' := ResizeGrid(g, Grow(added), gridOffset, blank);
      Lines(g') == Lines(g) + BlankLines(Top(g) + |g.screen|, added - Min(|g.history|, added), blank)
  {
    assert Lines(g)[|Lines(g)| - 1].index == Top(g) + |g.screen| - 1;
    hide BlankLines;
  }

  /** Growing pulls the newest history lines into the viewport and adds blank ones. */
  lemma GrowEffect(g: Grid, added: nat, gridOffset: nat, blank: Row)
    requires Valid(g)
    ensures var g' := ResizeGrid(g, Grow(added), gridOffset, blank);
      && Valid(g') && Top(g') == Top(g) - Min(|g.history|, added)
      && Lines(g') == Lines(g) + BlankLines(Top(g) + |g.screen|, added - Min(|g.history|, added), blank)
  {
    var k := Min(|g.history|, added);
    var more := BlankLines(Top(g) + |g.screen|, added - k, blank);
    GrownLines(g, added, gridOffset, blank);
    var g' := ResizeGrid(g, Grow(added), gridOffset, blank);
    assert g'.screen[0] == Lines(g')[|g'.history|] == Lines(g)[|g'.history|];
    forall i | 0 <= i < |Lines(g')| ensures Lines(g')[i].index == Top(g) - |g.history| + i {
      if i >= |Lines(g)| {
        assert Lines(g')[i] == more[i - |Lines(g)|];
      }
    }
  }

  lemma ResizeEffect(g: Grid, r: Resize, gridOffset: nat, blank: Row)
    requires Valid(g) && ValidResize(g, r)
    ensures var g' := ResizeGrid(g, r, gridOffset, blank);
      && Valid(g') && Top(g') == Top(g) + RowsMoved(g, r) && g'.limit == g.limit
      && |g'.history| == Min(|g.history| + RowsMoved(g, r), g.limit)
      && g'.offset == Min(gridOffset, |g'.history|)
  {
    hide Lines, ScrollMany;
    match r
    case Shrink(rows, pushed) =>
      ScrollManyEffect(g, pushed, blank);
      var s := ScrollMany(g, pushed, blank);
      CutEffect(s, rows, Min(gridOffset, |s.history|));
    case Grow(added) => GrowEffect(g, added, gridOffset, blank);
  }

  /** One resize keeps the counter in step exactly when the resize is lawful. */
  lemma ResizeKeepsStep(d: Driver, r: Resize, gridOffset: nat, blank: Row)
    requires Valid(d.term.primary) && ValidResize(d.term.primary, r)
    ensures Valid(ProcessResize(d, r, gridOffset, blank).term.primary)
    ensures InStep(d) ==>
      (InStep(ProcessResize(d, r, gridOffset, blank)) <==> LawfulResize(d, r, gridOffset))
  {
    ResizeEffect(d.term.primary, r, gridOffset, blank);
    ArmEffect(d.term.(primary := ResizeGrid(d.term.primary, r, gridOffset, blank)));
    assert Lines(d.term.primary)[0].index == Top(d.term.primary) - |d.term.primary.history|;
  }

  // ---------------------------------------------------------------------------------------
  // Whole runs
  // ---------------------------------------------------------------------------------------

  ghost predicate ValidRun(d: Driver, events: seq<Event>)
    decreases |events|
  {
    && Valid(d.term.primary)
    && (events != [] ==> ValidEvent(d, events[0]) && ValidRun(Step(d, events[0]), events[1..]))
  }

  ghost function Run(d: Driver, events: seq<Event>): Driver
    requires ValidRun(d, events)
    decreases |events|
  {
    if events == [] then d else Run(Step(d, events[0]), events[1..])
  }

  /** The counter is in step before the run and after each of its events. */
  ghost predicate InStepThroughout(d: Driver, events: seq<Event>)
    requires ValidRun(d, events)
    decreases |events|
  {
    InStep(d) && (events != [] ==> InStepThroughout(Step(d, events[0]), events[1..]))
  }

  ghost predicate LawfulThroughout(d: Driver, events: seq<Event>)
    requires ValidRun(d, events)
    decreases |events|
  {
    events != [] ==> Lawful(d, events[0]) && LawfulThroughout(Step(d, events[0]), events[1..])
  }

  lemma StepKeepsStep(d: Driver, e: Event)
    requires Valid(d.term.primary) && ValidEvent(d, e)
    ensures Valid(Step(d, e).term.primary)
    ensures InStep(d) ==> (InStep(Step(d, e)) <==> Lawful(d, e))
  {
    match e
    case Output(chunk, crossed) => ProcessKeepsStep(d, chunk, crossed);
    case Resized(r, gridOffset, blank) => ResizeKeepsStep(d, r, gridOffset, blank);
  }

  /** A run keeps the counter in step at every point exactly when every event is lawful. */
  lemma {:induction false} RunKeepsStep(d: Driver, events: seq<Event>)
    requires ValidRun(d, events) && InStep(d)
    ensures Valid(Run(d, events).term.primary)
    ensures InStepThroughout(d, events) <==> LawfulThroughout(d, events)
    ensures LawfulThroughout(d, events) ==> InStep(Run(d, events))
    decreases |events|
  {
    if events != [] {
      StepKeepsStep(d, events[0]);
      if Lawful(d, events[0]) {
        RunKeepsStep(Step(d, events[0]), events[1..]);
      } else {
        RunStaysValid(Step(d, events[0]), events[1..]);
      }
    }
  }

  lemma {:induction false} RunStaysValid(d: Driver, events: seq<Event>)
    requires ValidRun(d, events)
    ensures Valid(Run(d, events).term.primary)
    decreases |events|
  {
    if events != [] {
      RunStaysValid(Step(d, events[0]), events[1..]);
    }
  }

  function OldestSeq(d: Driver): nat { Monus(d.rotated, HistoryLen(d.term)) }

  /** The line the driver reads for a sequence number while the primary screen is showing. */
  function SeqLine(d: Driver, s: nat): Line
    requires !d.term.onAlt && OldestSeq(d) <= s < d.rotated + |d.term.primary.screen|
  {
    Lines(d.term.primary)[s - d.rotated + |d.term.primary.history|]
  }

  /**
    From creation, over every lawful run: each retained line is read under the index it was
    born with, the counter is the true index of the viewport top, the history never reaches
    below sequence 0, and the oldest readable sequence is the oldest retained line.
   */
  lemma LawfulRunsNumberLinesTruly(rows: nat, limit: nat, blank: Row, events: seq<Event>)
    requires rows > 0 && ValidRun(NewDriver(rows, limit, blank), events)
    requires LawfulThroughout(NewDriver(rows, limit, blank), events)
    ensures var d := Run(NewDriver(rows, limit, blank), events); var g := d.term.primary;
      && |g.screen| > 0
      && (!d.term.onAlt ==>
            && d.rotated == Top(g)
            && |g.history| <= d.rotated
            && OldestSeq(d) == Lines(g)[0].index
            && forall s: nat :: OldestSeq(d) <= s < d.rotated + |g.screen| ==> SeqLine(d, s).index == s)
  {
    var start := NewDriver(rows, limit, blank);
    RunKeepsStep(start, events);
    var d := Run(start, events);
    if !d.term.onAlt {
      InStepReadsTrueIndex(d);
    }
  }

  lemma InStepReadsTrueIndex(d: Driver)
    requires Valid(d.term.primary) && InStep(d) && !d.term.onAlt
    ensures |d.term.primary.history| <= d.rotated == Top(d.term.primary)
    ensures OldestSeq(d) == Lines(d.term.primary)[0].index
    ensures forall s: nat :: OldestSeq(d) <= s < d.rotated + |d.term.primary.screen| ==> SeqLine(d, s).index == s
  {
    assert Lines(d.term.primary)[0].index == Top(d.term.primary) - |d.term.primary.history|;
  }

  // ---------------------------------------------------------------------------------------
  // A sequence names the same text
  // ---------------------------------------------------------------------------------------

  predicate Retained(g: Grid, s: nat) {
    |Lines(g)| > 0 && Lines(g)[0].index <= s < Lines(g)[0].index + |Lines(g)|
  }

  /** The contents of the retained line born with index `s`. */
  function RowOf(g: Grid, s: nat): Row
    requires Retained(g, s)
  {
    Lines(g)[s - Lines(g)[0].index].row
  }

  predicate Rewrites(t: Term, op: Op, s: nat)
    requires |t.primary.screen| > 0
  {
    !t.onAlt && op.Write? && op.r < |t.primary.screen| && Top(t.primary) + op.r == s
  }

  ghost predicate ChunkRewrites(t: Term, ops: seq<Op>, s: nat)
    requires |t.primary.screen| > 0
    decreases |ops|
  {
    ops != [] && (Rewrites(t, ops[0], s) || ChunkRewrites(Apply(t, ops[0]), ops[1..], s))
  }

  /** The line is retained at every step of the run and no chunk writes into it. */
  ghost predicate LeftAlone(d: Driver, events: seq<Event>, s: nat)
    requires ValidRun(d, events)
    decreases |events|
  {
    && Retained(d.term.primary, s)
    && (events != [] ==>
          && (events[0].Output? ==> !ChunkRewrites(ArmProbe(d.term), events[0].chunk, s))
          && LeftAlone(Step(d, events[0]), events[1..], s))
  }

  lemma FirstIndex(g: Grid)
    requires Valid(g)
    ensures |Lines(g)| > 0 && Lines(g)[0].index == Top(g) - |g.history| && |Lines(g)| == |g.history| + |g.screen|
  {
  }

  /** One scroll: the lines so far and a new one, without the oldest if there is no room. */
  lemma ScrolledLines(g: Grid, blank: Row)
    requires Valid(g)
    ensures var grown := Lines(g) + [Line(Top(g) + |g.screen|, blank)];
      Lines(ScrollOne(g, blank)) == if |g.history| + 1 > g.limit then grown[1..] else grown
  {
    assert Lines(g)[|Lines(g)| - 1].index == Top(g) + |g.screen| - 1;
  }

  lemma ScrollKeepsRow(g: Grid, blank: Row, s: nat)
    requires Valid(g) && Retained(g, s)
    ensures var g' := ScrollOne(g, blank);
      && Valid(g') && Lines(g')[0].index >= Lines(g)[0].index
      && (Retained(g', s) ==> RowOf(g', s) == RowOf(g, s))
      && (s >= Lines(g')[0].index ==> Retained(g', s))
  {
    hide ScrollOne, Lines, Valid;
    ScrollOneEffect(g, blank);
    ScrolledLines(g, blank);
    FirstIndex(g);
    FirstIndex(ScrollOne(g, blank));
  }

  lemma WriteKeepsRow(g: Grid, r: nat, content: Row, s: nat)
    requires Valid(g) && Retained(g, s) && !(r < |g.screen| && Top(g) + r == s)
    ensures var g' := WriteRow(g, r, content);
      && |Lines(g')| == |Lines(g)| && Lines(g')[0].index == Lines(g)[0].index
      && Retained(g', s) && RowOf(g', s) == RowOf(g, s)
  {
    FirstIndex(g);
    var g' := WriteRow(g, r, content);
    assert forall i :: 0 <= i < |Lines(g)| && i != |g.history| + r ==> Lines(g')[i] == Lines(g)[i];
    assert forall i :: 0 <= i < |Lines(g)| ==> Lines(g')[i].index == Lines(g)[i].index;
    hide Valid, WriteRow, Lines;
  }

  lemma ApplyKeepsRow(t: Term, op: Op, s: nat)
    requires Valid(t.primary) && Retained(t.primary, s) && !Rewrites(t, op, s)
    ensures Valid(Apply(t, op).primary)
    ensures Lines(Apply(t, op).primary)[0].index >= Lines(t.primary)[0].index
    ensures Retained(Apply(t, op).primary, s) ==> RowOf(Apply(t, op).primary, s) == RowOf(t.primary, s)
    ensures s >= Lines(Apply(t, op).primary)[0].index ==> Retained(Apply(t, op).primary, s)
  {
    hide Valid, ScrollOne, WriteRow, Lines, Retained, RowOf;
    ApplyKeepsValid(t, op);
    FirstIndex(t.primary);
    match op
    case ScrollUp(blank) => ScrollKeepsRow(t.primary, blank, s);
    case Write(r, content) =>
      if !t.onAlt {
        WriteKeepsRow(t.primary, r, content, s);
      }
    case _ =>
  }

  lemma {:induction false} FirstIndexRises(t: Term, ops: seq<Op>)
    requires Valid(t.primary)
    ensures Valid(ApplyAll(t, ops).primary)
    ensures Lines(ApplyAll(t, ops).primary)[0].index >= Lines(t.primary)[0].index
  {
    hide Valid, Lines, Top, ApplyAll;
    ApplyAllEffect(t, ops);
    FirstIndex(ApplyAll(t, ops).primary);
    FirstIndex(t.primary);
  }

  lemma {:induction false} ApplyAllKeepsRow(t: Term, ops: seq<Op>, s: nat)
    requires Valid(t.primary) && Retained(t.primary, s) && !ChunkRewrites(t, ops, s)
    requires Retained(ApplyAll(t, ops).primary, s)
    ensures RowOf(ApplyAll(t, ops).primary, s) == RowOf(t.primary, s)
    decreases |ops|
  {
    hide Valid, Lines, Apply, RowOf, Rewrites;
    if ops != [] {
      ApplyKeepsRow(t, ops[0], s);
      FirstIndexRises(Apply(t, ops[0]), ops[1..]);
      ApplyAllKeepsRow(Apply(t, ops[0]), ops[1..], s);
    }
  }

  lemma {:induction false} ScrollManyKeepsRow(g: Grid, n: nat, blank: Row, s: nat)
    requires Valid(g) && Retained(g, s) && Retained(ScrollMany(g, n, blank), s)
    ensures RowOf(ScrollMany(g, n, blank), s) == RowOf(g, s)
    decreases n
  {
    hide Valid, Lines, ScrollOne, RowOf;
    if n > 0 {
      ScrollKeepsRow(g, blank, s);
      ScrollManyEffect(ScrollOne(g, blank), n - 1, blank);
      FirstIndex(ScrollOne(g, blank));
      FirstIndex(ScrollMany(g, n, blank));
      ScrollManyKeepsRow(ScrollOne(g, blank), n - 1, blank, s);
    }
  }

  lemma ResizeKeepsRow(g: Grid, r: Resize, gridOffset: nat, blank: Row, s: nat)
    requires Valid(g) && ValidResize(g, r) && Retained(g, s)
    requires Retained(ResizeGrid(g, r, gridOffset, blank), s)
    ensures RowOf(ResizeGrid(g, r, gridOffset, blank), s) == RowOf(g, s)
  {
    hide ScrollMany, Valid;
    var g' := ResizeGrid(g, r, gridOffset, blank);
    match r
    case Shrink(rows, pushed) =>
      var w := ScrollMany(g, pushed, blank);
      assert Lines(g') == Lines(w)[..|Lines(g')|];
      hide Lines;
      ScrollManyKeepsRow(g, pushed, blank, s);
    case Grow(added) =>
      GrowEffect(g, added, gridOffset, blank);
      hide Lines;
  }

  lemma StepKeepsRow(d: Driver, e: Event, s: nat)
    requires Valid(d.term.primary) && ValidEvent(d, e)
    requires e.Output? ==> !ChunkRewrites(ArmProbe(d.term), e.chunk, s)
    requires Retained(d.term.primary, s) && Retained(Step(d, e).term.primary, s)
    ensures RowOf(Step(d, e).term.primary, s) == RowOf(d.term.primary, s)
  {
    match e
    case Output(chunk, crossed) => ChunkKeepsRow(d, chunk, crossed, s);
    case Resized(r, gridOffset, blank) =>
      var t := d.term.(primary := ResizeGrid(d.term.primary, r, gridOffset, blank));
      ResizeEffect(d.term.primary, r, gridOffset, blank);
      ArmKeepsRow(t, s);
      hide ArmProbe, ResizeGrid;
      ResizeKeepsRow(d.term.primary, r, gridOffset, blank, s);
  }

  lemma ArmKeepsRow(t: Term, s: nat)
    requires Valid(t.primary)
    ensures Valid(ArmProbe(t).primary)
    ensures Retained(ArmProbe(t).primary, s) <==> Retained(t.primary, s)
    ensures Retained(t.primary, s) ==> RowOf(ArmProbe(t).primary, s) == RowOf(t.primary, s)
  {
    ArmEffect(t);
    assert Lines(ArmProbe(t).primary) == Lines(t.primary);
  }

  lemma ChunkKeepsRow(d: Driver, chunk: seq<Op>, crossed: bool, s: nat)
    requires Valid(d.term.primary) && !ChunkRewrites(ArmProbe(d.term), chunk, s)
    requires Retained(d.term.primary, s) && Retained(ProcessChunk(d, chunk, crossed).term.primary, s)
    ensures RowOf(ProcessChunk(d, chunk, crossed).term.primary, s) == RowOf(d.term.primary, s)
  {
    ArmKeepsRow(d.term, s);
    hide ArmProbe;
    ApplyAllKeepsRow(ArmProbe(d.term), chunk, s);
  }

  lemma {:induction false} RunKeepsRow(d: Driver, events: seq<Event>, s: nat)
    requires ValidRun(d, events) && LeftAlone(d, events, s)
    ensures Retained(Run(d, events).term.primary, s)
    ensures RowOf(Run(d, events).term.primary, s) == RowOf(d.term.primary, s)
    decreases |events|
  {
    if events != [] {
      RunKeepsRow(Step(d, events[0]), events[1..], s);
      StepKeepsRow(d, events[0], s);
    }
  }

  lemma LeftAloneIsRetained(d: Driver, events: seq<Event>, s: nat)
    requires ValidRun(d, events) && LeftAlone(d, events, s)
    ensures Valid(d.term.primary) && Retained(d.term.primary, s)
  {
    hide Valid, Retained;
  }

  /** In step, a sequence number reads the retained line of that index. */
  lemma InStepReadsRow(d: Driver, s: nat)
    requires Valid(d.term.primary) && InStep(d) && !d.term.onAlt && Retained(d.term.primary, s)
    ensures OldestSeq(d) <= s < d.rotated + |d.term.primary.screen|
    ensures SeqLine(d, s).row == RowOf(d.term.primary, s)
  {
    InStepReadsTrueIndex(d);
    FirstIndex(d.term.primary);
    hide Valid, Lines;
  }

  /**
    Reading a sequence number before and after any lawful run gives the same row, as long as
    the line stayed retained and nobody wrote into it.
   */
  lemma SequenceNamesSameText(d: Driver, events: seq<Event>, s: nat)
    requires ValidRun(d, events) && InStep(d) && LawfulThroughout(d, events)
    requires !d.term.onAlt && !Run(d, events).term.onAlt && LeftAlone(d, events, s)
    ensures var d' := Run(d, events);
      && OldestSeq(d) <= s < d.rotated + |d.term.primary.screen|
      && OldestSeq(d') <= s < d'.rotated + |d'.term.primary.screen|
      && SeqLine(d', s).row == SeqLine(d, s).row
  {
    hide Valid, Lines, Run, InStep, LawfulThroughout, LeftAlone, ValidRun, OldestSeq;
    RunKeepsStep(d, events);
    RunKeepsRow(d, events, s);
    LeftAloneIsRetained(d, events, s);
    InStepReadsRow(d, s);
    InStepReadsRow(Run(d, events), s);
  }

  // ---------------------------------------------------------------------------------------
  // What is counted, and the runs the counter cannot follow
  // ---------------------------------------------------------------------------------------

  /** The motion counted for a chunk that stays on the primary screen, lawful or not. */
  lemma CountedMotion(d: Driver, chunk: seq<Op>)
    requires Valid(d.term.primary) && !d.term.onAlt && !AltAfter(false, chunk)
    ensures ProcessChunk(d, chunk, false).rotated - d.rotated
         == Min(PrimaryScrolls(false, chunk), d.term.primary.limit - Min(1, |d.term.primary.history|))
  {
    ArmEffect(d.term);
    ApplyAllEffect(ArmProbe(d.term), chunk);
  }

  /** A first chunk that scrolls and then enters the alternate screen loses that motion for good. */
  lemma CrossingBeforeHistoryLosesMotion(rows: nat, limit: nat, blank: Row, n: nat)
    requires rows > 0 && n > 0
    ensures var scrolls := seq(n, i => ScrollUp(blank));
      var d := ProcessChunk(ProcessChunk(NewDriver(rows, limit, blank), scrolls + [EnterAlt], true), [LeaveAlt], true);
      !d.term.onAlt && Top(d.term.primary) == n && d.rotated == 0
  {
    var start := NewDriver(rows, limit, blank);
    var scrolls := seq(n, i => ScrollUp(blank));
    ScrollsThenEnter(scrolls);
    ArmEffect(start.term);
    ApplyAllEffect(ArmProbe(start.term), scrolls + [EnterAlt]);
    var d := ProcessChunk(start, scrolls + [EnterAlt], true);
    ArmEffect(d.term);
    ApplyAllEffect(ArmProbe(d.term), [LeaveAlt]);
  }

  lemma {:induction false} ScrollsThenEnter(scrolls: seq<Op>)
    requires forall i :: 0 <= i < |scrolls| ==> scrolls[i].ScrollUp?
    ensures PrimaryScrolls(false, scrolls + [EnterAlt]) == |scrolls|
    ensures AltAfter(false, scrolls + [EnterAlt])
    decreases |scrolls|
  {
    var ops := scrolls + [EnterAlt];
    if scrolls == [] {
      assert ops[1..] == [];
    } else {
      assert ops[1..] == scrolls[1..] + [EnterAlt];
      ScrollsThenEnter(scrolls[1..]);
    }
  }

  /** The motion the hidden grid's parked offset would have to show after a resize. */
  function Owed(g: Grid, r: Resize): int { Monus(g.offset, SCROLL_PROBE) + RowsMoved(g, r) }

  /**
    Behind the alternate screen a resize can be followed, by some offset the emulator may leave,
    exactly when the motion owed is one the history left can show.
   */
  lemma ResizeBehindAlternateScreen(d: Driver, r: Resize)
    requires |d.term.primary.screen| > 0 && ValidResize(d.term.primary, r) && d.term.onAlt
    ensures var g := d.term.primary;
      (exists offset: nat :: LawfulResize(d, r, offset))
      <==> 0 <= Owed(g, r) <= Monus(Min(|g.history| + RowsMoved(g, r), g.limit), SCROLL_PROBE)
  {
    var g := d.term.primary;
    var after := Min(|g.history| + RowsMoved(g, r), g.limit);
    if 0 <= Owed(g, r) <= Monus(after, SCROLL_PROBE) {
      var offset: nat := if Owed(g, r) == 0 then 0 else Owed(g, r) + SCROLL_PROBE;
      assert LawfulResize(d, r, offset);
    }
  }

  /**
    So growing the window there can be followed exactly when it pulls back no more rows than
    the parked offset shows as scrolled.
   */
  lemma GrowCanBeFollowed(d: Driver, added: nat)
    requires Valid(d.term.primary) && d.term.onAlt
    ensures (exists offset: nat :: LawfulResize(d, Grow(added), offset))
       <==> Min(|d.term.primary.history|, added) <= Monus(d.term.primary.offset, SCROLL_PROBE)
  {
    ResizeBehindAlternateScreen(d, Grow(added));
  }

  /**
    Growing the window further than that pulls history rows back into the hidden viewport and
    the counter never hears of it: whatever the emulator does, after returning it is too high.
   */
  lemma GrowBehindAlternateScreen(d: Driver, added: nat, gridOffset: nat, blank: Row)
    requires Valid(d.term.primary) && d.term.onAlt && InStep(d)
    requires Min(|d.term.primary.history|, added) > Monus(d.term.primary.offset, SCROLL_PROBE)
    ensures !LawfulResize(d, Grow(added), gridOffset)
    ensures var d' := ProcessChunk(ProcessResize(d, Grow(added), gridOffset, blank), [LeaveAlt], true);
      !d'.term.onAlt && |d'.term.primary.screen| > 0 && d'.rotated > Top(d'.term.primary)
  {
    GrowCanBeFollowed(d, added);
    ResizeEffect(d.term.primary, Grow(added), gridOffset, blank);
    var r := ProcessResize(d, Grow(added), gridOffset, blank);
    ArmEffect(d.term.(primary := ResizeGrid(d.term.primary, Grow(added), gridOffset, blank)));
    ArmEffect(r.term);
    ApplyAllEffect(ArmProbe(r.term), [LeaveAlt]);
  }

  // ---------------------------------------------------------------------------------------
  // Clients parked in the scrollback
  // ---------------------------------------------------------------------------------------

  /** The line `build_frame` puts in a frame row for a client `scrollOffset` lines above the bottom. */
  function FrameLine(g: Grid, scrollOffset: nat, row: nat): Option<Line> {
    var line := row - scrollOffset;
    if -|g.history| <= line < |g.screen| then Some(Lines(g)[line + |g.history|]) else None
  }

  /**
    At the bottom a frame shows the viewport; `scrollOffset` lines up its first rows are the last
    lines of the history and the viewport follows below them.
   */
  lemma FrameRows(g: Grid, scrollOffset: nat, row: nat)
    ensures row < scrollOffset ==>
      FrameLine(g, scrollOffset, row)
      == if scrollOffset - row <= |g.history| then Some(g.history[|g.history| - (scrollOffset - row)]) else None
    ensures row >= scrollOffset ==>
      FrameLine(g, scrollOffset, row)
      == if row - scrollOffset < |g.screen| then Some(g.screen[row - scrollOffset]) else None
  {
  }

  /**
    Once a history exists the probe count is the true motion exactly for chunks shorter than
    the scrollback, and then a client that adds it to its offset keeps looking at the same
    lines, row for row, except for those the scrollback has evicted.
   */
  lemma ParkedViewFollows(d: Driver, chunk: seq<Op>, crossed: bool, scrollOffset: nat, row: nat)
    requires Valid(d.term.primary) && !d.term.onAlt && !AltAfter(false, chunk)
    requires |d.term.primary.history| > 0
    ensures var d' := ProcessChunk(d, chunk, crossed); var moved := d'.scrolled - d.scrolled;
      && moved >= 0
      && (moved == PrimaryScrolls(false, chunk) <==> PrimaryScrolls(false, chunk) < d.term.primary.limit)
      && (moved == PrimaryScrolls(false, chunk) ==>
            var before := FrameLine(d.term.primary, scrollOffset, row);
            var after := FrameLine(d'.term.primary, scrollOffset + moved, row);
            before.Some? && Retained(d'.term.primary, before.value.index) ==>
              after.Some? && after.value.index == before.value.index)
  {
    ArmEffect(d.term);
    ApplyAllEffect(ArmProbe(d.term), chunk);
    var g' := ProcessChunk(d, chunk, crossed).term.primary;
    assert Lines(g')[0].index == Top(g') - |g'.history|;
  }
}
