/**
  How large a slot a glyph gets, over every run of the atlas: from the cell sizes announced, in
  plain arithmetic.
*/
module GlyphSizes {
  import opened Common
  import opened GlyphAtlas

  // ---------------------------------------------------------------------------------------
  // What is in force
  // ---------------------------------------------------------------------------------------

  /** The cell size glyphs are rendered for, and the padding on either side of them. */
  datatype Cell = Cell(width: nat, height: nat, wideWidth: nat, pad: nat)

  /** The browser hands out everything a canvas needs. */
  predicate Grants(e: Event) { !e.Invalidation? && e.browser == Browser(true, true, true) }

  /** There is a canvas once the browser has granted one; it is never lost. */
  predicate Granted(events: seq<Event>) { exists i :: 0 <= i < |events| && Grants(events[i]) }

  predicate SameCell(c: Cell, m: Metrics) { c.width == m.width && c.height == m.height && c.wideWidth == m.wideWidth }

  /**
    An announcement counts once there is a canvas and when it changes the cell size; only then is
    the overhang measured, and it is at least 2. An invalidation forgets the cell size.
   */
  function InForce(events: seq<Event>): Cell {
    if events == [] then Cell(0, 0, 0, 0)
    else
      var before, e := InForce(events[..|events| - 1]), events[|events| - 1];
      match e
      case Glyph(_, m, _) =>
        if Granted(events) && !SameCell(before, m) then Cell(m.width, m.height, m.wideWidth, Max(m.overhang, 2))
        else before
      case Invalidation => Cell(0, 0, 0, 2)
      case CanvasSize(_, _) => before
  }

  /** A slot for a key: one or two cells wide, padded on both sides, and two pixels taller than a cell. */
  predicate SizedFor(slot: Slot, key: GlyphKey, c: Cell) {
    && slot.w == Max(if key.wide then c.wideWidth else c.width, 1) + 2 * c.pad
    && slot.h == Max(c.height, 1) + 2
  }

  // ---------------------------------------------------------------------------------------
  // Every run
  // ---------------------------------------------------------------------------------------

  lemma {:induction false} RunSnoc(a: Table, events: seq<Event>, e: Event)
    ensures Run(a, events + [e]) == Step(Run(a, events), e)
    decreases |events|
  {
    hide Step;
    var all := events + [e];
    if events == [] {
      assert all[1..] == [];
      assert Run(Step(a, e), []) == Step(a, e);
    } else {
      assert all[1..] == events[1..] + [e];
      RunSnoc(Step(a, events[0]), events[1..], e);
    }
  }

  lemma GrantedSnoc(events: seq<Event>, e: Event)
    ensures Granted(events + [e]) <==> Granted(events) || Grants(e)
  {
    hide Grants;
    var all := events + [e];
    assert all[|events|] == e;
    if Granted(events) {
      var i :| 0 <= i < |events| && Grants(events[i]);
      assert all[i] == events[i];
    }
  }

  /** The table's own numbers are those in force. */
  predicate Tracks(a: Table, granted: bool, c: Cell) {
    && a.hasCanvas == a.hasContext == granted
    && (granted ==> MIN_SIZE <= a.cachedSize <= MAX_SIZE) && (!granted ==> a.cachedSize == 0 && a.slots == map[])
    && a.cellWidth == c.width && a.cellHeight == c.height && a.wideCellWidth == c.wideWidth && a.horizPad == c.pad
  }

  predicate AllSized(slots: map<GlyphKey, Slot>, c: Cell) {
    forall k :: k in slots ==> SizedFor(slots[k], k, c)
  }

  predicate SmallCell(c: Cell) {
    c.width < ORDINARY && c.height < ORDINARY && c.wideWidth < ORDINARY && c.pad < ORDINARY
  }

  lemma CanvasTracks(a: Table, granted: bool, c: Cell, size: nat, browser: Browser)
    requires Tracks(a, granted, c) && AllSized(a.slots, c)
    ensures var b := WithCanvas(a, size, browser);
      Tracks(b, granted || browser == Browser(true, true, true), c) && AllSized(b.slots, c)
  {
    hide SizedFor;
  }

  lemma OldCanvasIsReady(a: Table, granted: bool, c: Cell, browser: Browser)
    requires Tracks(a, granted, c)
    ensures CanvasReady(a, SizeOf(a)) || Obtainable(a, browser) <==> granted || browser == Browser(true, true, true)
  {
  }

  function Announced(c: Cell, granted: bool, m: Metrics): Cell {
    if granted && !SameCell(c, m) then Cell(m.width, m.height, m.wideWidth, Max(m.overhang, 2)) else c
  }

  lemma MetricsTrack(a: Table, granted: bool, c: Cell, m: Metrics, browser: Browser)
    requires Tracks(a, granted, c) && AllSized(a.slots, c)
    ensures var b, granted' := WithMetrics(a, m, browser), granted || browser == Browser(true, true, true);
      Tracks(b, granted', Announced(c, granted', m)) && AllSized(b.slots, Announced(c, granted', m))
  {
    hide SizedFor, WithCanvas, CanvasReady, Obtainable;
    CanvasTracks(a, granted, c, SizeOf(a), browser);
    OldCanvasIsReady(a, granted, c, browser);
  }

  /** The allocator answers with the size it was asked for, and without wrap-around that is the size in force. */
  lemma AnswerIsSized(b: Table, granted: bool, c: Cell, key: GlyphKey)
    requires Tracks(b, granted, c) && SmallCell(c)
    ensures var r := Allocate(ShelfOf(b), RenderWidth(b, key), RenderHeight(b)).1;
      r.Some? ==> SizedFor(r.value, key, c)
  {
    hide Saturate, Wrap;
    WrapSmall(b.horizPad * 2);
    WrapSmall(Max(if key.wide then b.wideCellWidth else b.cellWidth, 1) + b.horizPad * 2);
    WrapSmall(Max(b.cellHeight, 1) + 2);
  }

  lemma RequestTracks(a: Table, granted: bool, c: Cell, key: GlyphKey, m: Metrics, browser: Browser)
    requires Tracks(a, granted, c) && AllSized(a.slots, c)
    requires SmallCell(Announced(c, granted || browser == Browser(true, true, true), m))
    ensures var granted' := granted || browser == Browser(true, true, true);
      var c', (a', r) := Announced(c, granted', m), Requested(a, key, m, browser);
      && Tracks(a', granted', c') && AllSized(a'.slots, c')
      && (r.Some? ==> granted' && SizedFor(r.value, key, c'))
  {
    hide SizedFor, WithMetrics, Announced, Allocate, HasCodePoint, RenderWidth, RenderHeight, SmallCell;
    var granted' := granted || browser == Browser(true, true, true);
    var b, c' := WithMetrics(a, m, browser), Announced(c, granted', m);
    MetricsTrack(a, granted, c, m, browser);
    AnswerIsSized(b, granted', c', key);
  }

  lemma {:induction false} RunIsSmall(events: seq<Event>)
    requires forall i :: 0 <= i < |events| ==> Ordinary(events[i])
    ensures SmallCell(InForce(events))
    decreases |events|
  {
    hide Granted;
    if events != [] {
      RunIsSmall(events[..|events| - 1]);
      assert Ordinary(events[|events| - 1]);
    }
  }

  lemma {:induction false} RunTracks(events: seq<Event>)
    requires forall i :: 0 <= i < |events| ==> Ordinary(events[i])
    ensures var a := Run(NEW_TABLE, events);
      Tracks(a, Granted(events), InForce(events)) && AllSized(a.slots, InForce(events))
    decreases |events|
  {
    hide Granted, SizedFor, Requested, WithCanvas, SameCell, SmallCell, Ordinary;
    if events == [] {
      NothingGranted();
    } else {
      var init, e := events[..|events| - 1], events[|events| - 1];
      assert init + [e] == events;
      RunTracks(init);
      RunSnoc(NEW_TABLE, init, e);
      GrantedSnoc(init, e);
      RunIsSmall(events);
      var a, c := Run(NEW_TABLE, init), InForce(init);
      match e
      case Glyph(key, m, browser) => RequestTracks(a, Granted(init), c, key, m, browser);
      case Invalidation =>
      case CanvasSize(size, browser) => CanvasTracks(a, Granted(init), c, size, browser);
    }
  }

  lemma NothingGranted()
    ensures !Granted([])
  {
  }

  /**
    From a new atlas, after any calls with ordinary metrics, every live slot has the size of the
    cell in force: `max(cell width, 1) + 2 pad` wide and `max(cell height, 1) + 2` tall.
   */
  lemma LiveSlotsAreSized(events: seq<Event>, key: GlyphKey)
    requires forall i :: 0 <= i < |events| ==> Ordinary(events[i])
    requires key in Run(NEW_TABLE, events).slots
    ensures var slot, c := Run(NEW_TABLE, events).slots[key], InForce(events);
      && slot.w == Max(if key.wide then c.wideWidth else c.width, 1) + 2 * c.pad
      && slot.h == Max(c.height, 1) + 2
  {
    hide InForce, Run, Granted;
    RunTracks(events);
  }

  /**
    An answer always has the height its own request announced, and the width exactly when the
    announcement changed the cell size or the padding in force is the one it would have measured:
    a change of the overhang alone is not noticed.
   */
  lemma AnswerIsSizedExactly(events: seq<Event>, key: GlyphKey, m: Metrics, browser: Browser)
    requires forall i :: 0 <= i < |events| ==> Ordinary(events[i])
    requires Ordinary(Glyph(key, m, browser))
    ensures var r, c := Requested(Run(NEW_TABLE, events), key, m, browser).1, InForce(events);
      r.Some? ==>
        && r.value.h == Max(m.height, 1) + 2
        && (r.value.w == Max(if key.wide then m.wideWidth else m.width, 1) + 2 * Max(m.overhang, 2) <==>
              (c.width, c.height, c.wideWidth) != (m.width, m.height, m.wideWidth) || c.pad == Max(m.overhang, 2))
  {
    hide InForce, Run, Granted, Requested;
    RunTracks(events);
    RunIsSmall(events);
    RequestTracks(Run(NEW_TABLE, events), Granted(events), InForce(events), key, m, browser);
  }

  /** The slots of a run in pixels: one pixel inside the canvas and at least two from each other. */
  lemma SlotsApartInPixels(events: seq<Event>, j: GlyphKey, k: GlyphKey)
    requires |events| < 0xFFFF_8000 && forall i :: 0 <= i < |events| ==> Ordinary(events[i])
    requires j in Run(NEW_TABLE, events).slots && k in Run(NEW_TABLE, events).slots && j != k
    ensures var a := Run(NEW_TABLE, events);
      var s, t := a.slots[j], a.slots[k];
      && 2048 <= a.cachedSize <= 8192
      && 1 <= s.x && s.x + s.w + 1 <= a.cachedSize && 1 <= s.y && s.y + s.h + 1 <= a.cachedSize
      && (s.x + s.w + 2 <= t.x || t.x + t.w + 2 <= s.x || s.y + s.h + 2 <= t.y || t.y + t.h + 2 <= s.y)
  {
    hide InForce, Run, Granted, Shelved;
    RunTracks(events);
    NewAtlasKeepsSlotsApart(events);
  }

  /** Two requests whose metrics differ only in the overhang: the second is given too narrow a slot. */
  lemma StaleOverhang(key: GlyphKey)
    requires HasCodePoint(key) && !key.wide
    ensures var browser := Browser(true, true, true);
      var first, second := Metrics(10, 20, 20, 2), Metrics(10, 20, 20, 9);
      var r := Requested(Run(NEW_TABLE, [Glyph(key, first, browser)]), key, second, browser).1;
      r.Some? && r.value.w == 14 != 10 + 2 * 9
  {
    hide HasCodePoint, Requested;
    var first, second := Metrics(10, 20, 20, 2), Metrics(10, 20, 20, 9);
    var events := [Glyph(key, first, Browser(true, true, true))];
    assert events[1..] == [];
    assert Run(NEW_TABLE, events) == Step(NEW_TABLE, events[0]);
    var b := FirstSlot(key);
    AnsweredAgain(b, key, second);
  }

  lemma FirstSlot(key: GlyphKey) returns (b: Table)
    requires HasCodePoint(key) && !key.wide
    ensures b == Requested(NEW_TABLE, key, Metrics(10, 20, 20, 2), Browser(true, true, true)).0
    ensures key in b.slots && b.slots[key].w == 14 && Measured(b, Metrics(10, 20, 20, 9))
    ensures CanvasReady(b, SizeOf(b))
  {
    hide HasCodePoint, Allocate;
    var m, browser := Metrics(10, 20, 20, 2), Browser(true, true, true);
    b := Requested(NEW_TABLE, key, m, browser).0;
    FirstPlaced(Shelf(2048, 1, 1, 0));
    var a := WithMetrics(NEW_TABLE, m, browser);
    assert a == Table(map[], 1, 1, 0, 10, 20, 20, 2, 2048, true, true);
    assert RenderWidth(a, key) == 14 && RenderHeight(a) == 22;
  }

  lemma FirstPlaced(s: Shelf)
    requires s == Shelf(2048, 1, 1, 0)
    ensures Allocate(s, 14, 22).1 == Some(Slot(2, 2, 14, 22))
  {
  }

  lemma AnsweredAgain(b: Table, key: GlyphKey, m: Metrics)
    requires key in b.slots && Measured(b, m) && CanvasReady(b, SizeOf(b))
    ensures Requested(b, key, m, Browser(true, true, true)).1 == Some(b.slots[key])
  {
    hide HasCodePoint, Allocate, Clamped;
  }
}
