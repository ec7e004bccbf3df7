/**
  The glyph atlas: a square canvas on which glyphs are placed shelf by shelf.  Only the geometry
  is modelled; sizes are the source's 32-bit unsigned integers, with their wrap-around.
*/
module GlyphAtlas {
  import opened Common
  import B = Bytes
  import Utf8

  const MIN_SIZE: nat := 2048
  const MAX_SIZE: nat := 8192
  const PADDING: nat := 1
  const VERT_PAD: nat := 2
  const MIN_HORIZ_PAD: nat := 2
  const MODULUS: nat := 0x1_0000_0000

  /** Where a glyph is drawn, without its padding. */
  datatype Slot = Slot(x: nat, y: nat, w: nat, h: nat)

  datatype GlyphKey = GlyphKey(bytes: seq<B.Byte>, bold: bool, italic: bool, underline: bool, wide: bool)

  /** The key's text is exactly one code point. */
  predicate HasCodePoint(key: GlyphKey) {
    match Utf8.DecodeScalars(key.bytes) case Text(cps) => |cps| == 1 case Invalid(_) => false
  }

  function Wrap(n: nat): nat { n % MODULUS }

  function Saturate(n: nat): nat { if n < MODULUS then n else MODULUS - 1 }

  // ---------------------------------------------------------------------------------------
  // Shelf allocation
  // ---------------------------------------------------------------------------------------

  /** The allocator's position: the shelf at `nextY`, filled up to `nextX`, `rowHeight` tall. */
  datatype Shelf = Shelf(size: nat, nextX: nat, nextY: nat, rowHeight: nat)

  function Broken(s: Shelf): Shelf {
    s.(nextX := PADDING, nextY := Saturate(s.nextY + Max(s.rowHeight, PADDING)), rowHeight := 0)
  }

  /** The shelf after `allocate_slot`, and the slot if there was room. */
  function Allocate(s: Shelf, width: nat, height: nat): (Shelf, Option<Slot>) {
    var aw, ah := Wrap(width + 2 * PADDING), Wrap(height + 2 * PADDING);
    if aw >= s.size || ah >= s.size then (s, None)
    else
      var t := if Wrap(s.nextX + aw) >= s.size then Broken(s) else s;
      if Wrap(t.nextY + ah) >= t.size then (t, None)
      else
        (t.(nextX := Saturate(t.nextX + aw + PADDING), rowHeight := Max(t.rowHeight, ah + PADDING)),
         Some(Slot(t.nextX + PADDING, t.nextY + PADDING, width, height)))
  }

  /** The slot with its padding lies on the canvas. */
  predicate Inside(slot: Slot, size: nat) {
    PADDING <= slot.x && PADDING <= slot.y && slot.x + slot.w + PADDING <= size && slot.y + slot.h + PADDING <= size
  }

  /** The slots with their padding do not overlap. */
  predicate Disjoint(a: Slot, b: Slot) {
    || a.x + a.w + PADDING <= b.x - PADDING || b.x + b.w + PADDING <= a.x - PADDING
    || a.y + a.h + PADDING <= b.y - PADDING || b.y + b.h + PADDING <= a.y - PADDING
  }

  /** The slot is on an earlier shelf, or on the current one to the left of `nextX`. */
  predicate Shelved(slot: Slot, s: Shelf) {
    || slot.y + slot.h + PADDING <= s.nextY
    || (slot.y == s.nextY + PADDING && slot.x + slot.w + PADDING < s.nextX && slot.h + 2 * PADDING < s.rowHeight)
  }

  /**
    The position stays small.  Only a request exactly one short of the canvas width, counted in
    `wide`, can move the shelf again after a failure.
   */
  predicate InRange(s: Shelf, wide: nat) {
    && MIN_SIZE <= s.size <= MAX_SIZE && s.nextX <= s.size + 1 && s.rowHeight <= s.size
    && (if s.rowHeight > 0 then s.nextY < s.size else s.nextX <= PADDING && s.nextY <= 2 * s.size + wide)
  }

  /** Counts of oversize requests for which no 32-bit sum can wrap around. */
  const WIDE_LIMIT: nat := MODULUS - 4 * MAX_SIZE

  predicate IsWide(s: Shelf, width: nat) { Wrap(width + 2 * PADDING) == s.size - 1 }

  /** The allocation without wrap-around or saturation. */
  function PlainAllocate(s: Shelf, width: nat, height: nat): (Shelf, Option<Slot>) {
    var aw, ah := width + 2 * PADDING, height + 2 * PADDING;
    if aw >= s.size || ah >= s.size then (s, None)
    else
      var t := if s.nextX + aw >= s.size
        then s.(nextX := PADDING, nextY := s.nextY + Max(s.rowHeight, PADDING), rowHeight := 0) else s;
      if t.nextY + ah >= t.size then (t, None)
      else
        (t.(nextX := t.nextX + aw + PADDING, rowHeight := Max(t.rowHeight, ah + PADDING)),
         Some(Slot(t.nextX + PADDING, t.nextY + PADDING, width, height)))
  }

  lemma WrapSmall(n: nat)
    requires n < MODULUS
    ensures Wrap(n) == Saturate(n) == n
  {
  }

  lemma NothingWraps(s: Shelf, width: nat, height: nat, wide: nat)
    requires InRange(s, wide) && wide < WIDE_LIMIT && width < MODULUS - 2 && height < MODULUS - 2
    ensures Allocate(s, width, height) == PlainAllocate(s, width, height)
    ensures IsWide(s, width) <==> width + 2 * PADDING == s.size - 1
  {
    hide Wrap, Saturate, InRange;
    var aw, ah := width + 2 * PADDING, height + 2 * PADDING;
    WrapSmall(aw);
    WrapSmall(ah);
    if aw < s.size && ah < s.size {
      SumsStaySmall(s, aw, ah, wide);
      WrapSmall(s.nextX + aw);
      WrapSmall(s.nextY + Max(s.rowHeight, PADDING));
      WrapSmall(s.nextY + ah);
      WrapSmall(s.nextY + Max(s.rowHeight, PADDING) + ah);
      WrapSmall(s.nextX + aw + PADDING);
      WrapSmall(PADDING + aw + PADDING);
    }
  }

  lemma SumsStaySmall(s: Shelf, aw: nat, ah: nat, wide: nat)
    requires InRange(s, wide) && wide < WIDE_LIMIT && aw < s.size && ah < s.size
    ensures s.nextX + aw + PADDING < MODULUS && PADDING + aw + PADDING < MODULUS
    ensures s.nextY + Max(s.rowHeight, PADDING) + ah < MODULUS
  {
  }

  lemma StaysInRange(s: Shelf, width: nat, height: nat, wide: nat)
    requires InRange(s, wide)
    ensures var (s', r) := PlainAllocate(s, width, height);
      && s'.size == s.size
      && InRange(s', if width + 2 * PADDING == s.size - 1 then wide + 1 else wide)
      && (r.Some? ==> Inside(r.value, s.size) && Shelved(r.value, s') && r.value.w == width && r.value.h == height)
  {
  }

  lemma KeepsShelved(s: Shelf, width: nat, height: nat, slot: Slot)
    requires Inside(slot, s.size) && Shelved(slot, s)
    ensures var (s', r) := PlainAllocate(s, width, height);
      Shelved(slot, s') && (r.Some? ==> Disjoint(slot, r.value))
  {
  }

  /** One allocation: a slot handed out is on the canvas and disjoint from all shelved before it. */
  lemma AllocateKeepsShelves(s: Shelf, width: nat, height: nat, wide: nat, slots: set<Slot>)
    requires InRange(s, wide) && wide < WIDE_LIMIT && width < MODULUS - 2 && height < MODULUS - 2
    requires forall slot :: slot in slots ==> Inside(slot, s.size) && Shelved(slot, s)
    ensures var (s', r) := Allocate(s, width, height); var wide' := if IsWide(s, width) then wide + 1 else wide;
      && s'.size == s.size && InRange(s', wide')
      && (forall slot :: slot in slots ==> Shelved(slot, s'))
      && (r.Some? ==>
            && Inside(r.value, s.size) && Shelved(r.value, s') && r.value.w == width && r.value.h == height
            && forall slot :: slot in slots ==> Disjoint(slot, r.value))
  {
    NothingWraps(s, width, height, wide);
    StaysInRange(s, width, height, wide);
    hide Allocate, PlainAllocate, InRange, IsWide, Inside, Shelved, Disjoint;
    forall slot | slot in slots
      ensures var (s', r) := Allocate(s, width, height); Shelved(slot, s') && (r.Some? ==> Disjoint(slot, r.value))
    {
      KeepsShelved(s, width, height, slot);
    }
  }

  /** A request that fits the canvas in height and is exactly one short of it in width. */
  predicate Drifts(s: Shelf, width: nat, height: nat) {
    IsWide(s, width) && height + 2 * PADDING < s.size && s.nextX >= PADDING
  }

  /**
    A failed request leaves the shelf where it can be repeated for ever without moving it
    exactly when it does not drift; one that drifts moves the shelf down by one each time.
   */
  lemma FailuresSettleUnlessWide(s: Shelf, wide: nat, width: nat, height: nat)
    requires InRange(s, wide) && wide + 1 < WIDE_LIMIT && width < MODULUS - 2 && height < MODULUS - 2
    requires Allocate(s, width, height).1.None?
    ensures var t := Allocate(s, width, height).0;
      && (Allocate(t, width, height) == (t, None) <==> !Drifts(s, width, height))
      && (Drifts(s, width, height) ==> Allocate(t, width, height) == (t.(nextY := t.nextY + 1), None))
  {
    NothingWraps(s, width, height, wide);
    StaysInRange(s, width, height, wide);
    hide Allocate, IsWide;
    var t := PlainAllocate(s, width, height).0;
    NothingWraps(t, width, height, if width + 2 * PADDING == s.size - 1 then wide + 1 else wide);
  }

  /** A slot of a size whose padding wraps around would not be on the canvas: the bound is exact. */
  lemma WrappedSizesMisplace(s: Shelf, width: nat, height: nat)
    requires MIN_SIZE <= s.size <= MAX_SIZE && (MODULUS - 2 <= width < MODULUS || MODULUS - 2 <= height < MODULUS)
    ensures var r := Allocate(s, width, height).1; r.Some? ==> !Inside(r.value, s.size)
  {
    hide Wrap, Saturate;
  }

  predicate PaddingWraps(width: nat, height: nat) { width >= MODULUS - 2 * PADDING || height >= MODULUS - 2 * PADDING }

  lemma SizeIsKept(s: Shelf, width: nat, height: nat)
    ensures Allocate(s, width, height).0.size == s.size
  {
  }

  /** The steps of `allocate_slot`. */
  method PlaceOnShelf(s: Shelf, width: nat, height: nat) returns (s': Shelf, r: Option<Slot>)
    ensures (s', r) == Allocate(s, width, height)
  {
    hide Wrap, Saturate;
    s', r := s, None;
    var allocWidth, allocHeight := Wrap(width + 2 * PADDING), Wrap(height + 2 * PADDING);
    if allocWidth >= s.size || allocHeight >= s.size {
      return;
    }
    if Wrap(s.nextX + allocWidth) >= s.size {
      s' := s'.(nextX := PADDING, nextY := Saturate(s.nextY + Max(s.rowHeight, PADDING)), rowHeight := 0);
    }
    if Wrap(s'.nextY + allocHeight) >= s.size {
      return;
    }
    r := Some(Slot(s'.nextX + PADDING, s'.nextY + PADDING, width, height));
    s' := s'.(nextX := Saturate(s'.nextX + allocWidth + PADDING),
        rowHeight := Max(s'.rowHeight, allocHeight + PADDING));
  }

  // ---------------------------------------------------------------------------------------
  // The atlas
  // ---------------------------------------------------------------------------------------

  /** What the browser hands out when asked. */
  datatype Browser = Browser(document: bool, canvas: bool, context: bool)

  /** The cell size in whole pixels, and how far glyphs stick out of it. */
  datatype Metrics = Metrics(width: nat, height: nat, wideWidth: nat, overhang: nat)

  /** The numbers are 32-bit. */
  predicate MetricsOk(m: Metrics) {
    m.width < MODULUS && m.height < MODULUS && m.wideWidth < MODULUS && m.overhang < MODULUS
  }

  datatype Table = Table(
    slots: map<GlyphKey, Slot>, nextX: nat, nextY: nat, rowHeight: nat,
    cellWidth: nat, cellHeight: nat, wideCellWidth: nat, horizPad: nat,
    cachedSize: nat, hasCanvas: bool, hasContext: bool)

  const NEW_TABLE: Table := Table(map[], 0, 0, 0, 0, 0, 0, 0, 0, false, false)

  function SizeOf(a: Table): nat { if a.cachedSize > 0 then a.cachedSize else MIN_SIZE }

  function ShelfOf(a: Table): Shelf { Shelf(SizeOf(a), a.nextX, a.nextY, a.rowHeight) }

  function Clamped(size: nat): nat {
    if size < MIN_SIZE then MIN_SIZE else if size > MAX_SIZE then MAX_SIZE else size
  }

  function Cleared(a: Table): Table { a.(slots := map[], nextX := PADDING, nextY := PADDING, rowHeight := 0) }

  function Invalidated(a: Table): Table {
    Cleared(a).(cellWidth := 0, cellHeight := 0, wideCellWidth := 0, horizPad := MIN_HORIZ_PAD)
  }

  predicate CanvasReady(a: Table, size: nat) { a.cachedSize == Clamped(size) && a.hasCanvas && a.hasContext }

  predicate Obtainable(a: Table, browser: Browser) {
    browser.document && (a.hasCanvas || browser.canvas) && (a.hasContext || browser.context)
  }

  /** The table after a canvas of a size was asked for; a canvas without a context is let go. */
  function WithCanvas(a: Table, size: nat, browser: Browser): Table {
    if CanvasReady(a, size) then a
    else if Obtainable(a, browser) then Cleared(a.(hasCanvas := true, hasContext := true, cachedSize := Clamped(size)))
    else if browser.document && (a.hasCanvas || browser.canvas) then a.(hasCanvas := false)
    else a
  }

  predicate Measured(a: Table, m: Metrics) {
    a.cellWidth == m.width && a.cellHeight == m.height && a.wideCellWidth == m.wideWidth
  }

  /** The table after the cell metrics were announced. */
  function WithMetrics(a: Table, m: Metrics, browser: Browser): Table {
    var b := WithCanvas(a, SizeOf(a), browser);
    if !CanvasReady(a, SizeOf(a)) && !Obtainable(a, browser) then b
    else if Measured(b, m) then b
    else
      Invalidated(b).(cellWidth := m.width, cellHeight := m.height, wideCellWidth := m.wideWidth,
                      horizPad := Max(m.overhang, MIN_HORIZ_PAD))
  }

  /** The size a glyph is rendered at. */
  function RenderWidth(a: Table, key: GlyphKey): nat {
    Wrap(Max(if key.wide then a.wideCellWidth else a.cellWidth, 1) + Wrap(a.horizPad * 2))
  }

  function RenderHeight(a: Table): nat { Wrap(Max(a.cellHeight, 1) + VERT_PAD) }

  function WithShelf(a: Table, s: Shelf): Table { a.(nextX := s.nextX, nextY := s.nextY, rowHeight := s.rowHeight) }

  /** The table after a glyph was asked for, and the answer. */
  function Requested(a: Table, key: GlyphKey, m: Metrics, browser: Browser): (Table, Option<Slot>) {
    var b := WithMetrics(a, m, browser);
    if key in b.slots then (b, Some(b.slots[key]))
    else
      var (s, r) := Allocate(ShelfOf(b), RenderWidth(b, key), RenderHeight(b));
      var c := WithShelf(b, s);
      if r.None? || !c.hasContext || !HasCodePoint(key) then (c, None) else (c.(slots := c.slots[key := r.value]), r)
  }

  // ---------------------------------------------------------------------------------------
  // What every call keeps
  // ---------------------------------------------------------------------------------------

  /** All live slots are on the canvas, shelved, and pairwise disjoint, padding included. */
  ghost predicate SlotsFit(slots: map<GlyphKey, Slot>, s: Shelf) {
    && (forall k :: k in slots ==> Inside(slots[k], s.size) && Shelved(slots[k], s))
    && (forall j, k :: j in slots && k in slots && j != k ==> Disjoint(slots[j], slots[k]))
  }

  /** The numbers a table holds are 32-bit and its canvas, if any, has a size from the range. */
  predicate Typed(a: Table) {
    && (a.cachedSize == 0 || MIN_SIZE <= a.cachedSize <= MAX_SIZE)
    && (a.cachedSize == 0 ==> a.slots == map[] && !a.hasContext)
    && a.cellWidth < MODULUS && a.cellHeight < MODULUS && a.wideCellWidth < MODULUS && a.horizPad < MODULUS
  }

  /** `wide` bounds the requests one short of the canvas width since the table was last cleared. */
  ghost predicate Good(a: Table, wide: nat): (good: bool)
    ensures good ==> Typed(a)
  {
    Typed(a) && InRange(ShelfOf(a), wide) && SlotsFit(a.slots, ShelfOf(a))
  }

  lemma NewIsGood()
    ensures Good(NEW_TABLE, 0)
  {
  }

  lemma ClearedIsGood(a: Table)
    requires Typed(a)
    ensures Good(Cleared(a), 0) && Typed(Invalidated(a)) && Good(Invalidated(a), 0)
  {
  }

  lemma SlotsFitAfter(slots: map<GlyphKey, Slot>, s: Shelf, width: nat, height: nat, wide: nat)
    requires InRange(s, wide) && wide < WIDE_LIMIT && !PaddingWraps(width, height) && SlotsFit(slots, s)
    ensures var (s', r) := Allocate(s, width, height);
      && s'.size == s.size
      && InRange(s', if IsWide(s, width) then wide + 1 else wide) && SlotsFit(slots, s')
      && (r.Some? ==> forall key :: key !in slots ==> SlotsFit(slots[key := r.value], s'))
  {
    AllocateKeepsShelves(s, width, height, wide, slots.Values);
    hide Allocate, InRange, Inside, Shelved, IsWide;
    assert forall k :: k in slots ==> slots[k] in slots.Values;
    DisjointSymmetric();
    hide Disjoint;
  }

  lemma DisjointSymmetric()
    ensures forall a, b :: Disjoint(a, b) <==> Disjoint(b, a)
  {
  }

  // ---------------------------------------------------------------------------------------
  // Sequences of calls
  // ---------------------------------------------------------------------------------------

  datatype Event =
    | Glyph(key: GlyphKey, metrics: Metrics, browser: Browser)
    | Invalidation
    | CanvasSize(size: nat, browser: Browser)

  predicate EventOk(e: Event) { e.Glyph? ==> MetricsOk(e.metrics) }

  function Step(a: Table, e: Event): Table {
    match e
    case Glyph(key, m, browser) => Requested(a, key, m, browser).0
    case Invalidation => Invalidated(a)
    case CanvasSize(size, browser) => WithCanvas(a, size, browser)
  }

  function Run(a: Table, events: seq<Event>): Table
    decreases |events|
  {
    if events == [] then a else Run(Step(a, events[0]), events[1..])
  }

  predicate Replaces(a: Table, size: nat, browser: Browser) { !CanvasReady(a, size) && Obtainable(a, browser) }

  /** The calls that clear the table: the canvas is replaced, or the metrics have changed. */
  predicate Clears(a: Table, e: Event) {
    match e
    case Glyph(_, m, browser) =>
      Replaces(a, SizeOf(a), browser) || (CanvasReady(a, SizeOf(a)) && !Measured(a, m))
    case Invalidation => true
    case CanvasSize(size, browser) => Replaces(a, size, browser)
  }

  /** The call asks the allocator for a slot, and what it asks from. */
  predicate Asks(a: Table, e: Event) { e.Glyph? && e.key !in WithMetrics(a, e.metrics, e.browser).slots }

  function AskedOf(a: Table, e: Event): Table { if e.Glyph? then WithMetrics(a, e.metrics, e.browser) else a }

  /** A request so large that its padding wraps around. */
  predicate Wraps(a: Table, e: Event) {
    Asks(a, e) && PaddingWraps(RenderWidth(AskedOf(a, e), e.key), RenderHeight(AskedOf(a, e)))
  }

  /** A request exactly one short of the canvas width. */
  predicate AsksWide(a: Table, e: Event) {
    Asks(a, e) && IsWide(ShelfOf(AskedOf(a, e)), RenderWidth(AskedOf(a, e), e.key))
  }

  /** Requests one short of the canvas width since the last clearing. */
  function NextWide(a: Table, wide: nat, e: Event): nat {
    (if Clears(a, e) then 0 else wide) + if AsksWide(a, e) then 1 else 0
  }

  function WideAfter(a: Table, wide: nat, events: seq<Event>): nat
    decreases |events|
  {
    if events == [] then wide else WideAfter(Step(a, events[0]), NextWide(a, wide, events[0]), events[1..])
  }

  /** No padding wraps around, and between two clearings fewer than the limit of requests are wide. */
  predicate Sound(a: Table, wide: nat, events: seq<Event>)
    decreases |events|
  {
    wide < WIDE_LIMIT
    && (events != [] ==>
          && EventOk(events[0]) && !Wraps(a, events[0])
          && Sound(Step(a, events[0]), NextWide(a, wide, events[0]), events[1..]))
  }

  lemma CanvasKeeps(a: Table, wide: nat, size: nat, browser: Browser)
    requires Good(a, wide)
    ensures Good(WithCanvas(a, size, browser), if Replaces(a, size, browser) then 0 else wide)
  {
    hide InRange, SlotsFit;
    if Replaces(a, size, browser) {
      ClearedIsGood(a.(slots := map[], hasCanvas := true, hasContext := true, cachedSize := Clamped(size)));
    }
  }

  lemma MetricsKeep(a: Table, wide: nat, key: GlyphKey, m: Metrics, browser: Browser)
    requires Good(a, wide) && MetricsOk(m)
    ensures Good(WithMetrics(a, m, browser), if Clears(a, Glyph(key, m, browser)) then 0 else wide)
  {
    hide Good, InRange, SlotsFit, Clamped;
    CanvasKeeps(a, wide, SizeOf(a), browser);
    var b := WithCanvas(a, SizeOf(a), browser);
    if (CanvasReady(a, SizeOf(a)) || Obtainable(a, browser)) && !Measured(b, m) {
      ClearedIsGood(b);
      ReMeasured(Invalidated(b), 0, m);
    }
  }

  lemma ReMeasured(b: Table, wide: nat, m: Metrics)
    requires Good(b, wide) && MetricsOk(m)
    ensures Good(b.(cellWidth := m.width, cellHeight := m.height, wideCellWidth := m.wideWidth,
                    horizPad := Max(m.overhang, MIN_HORIZ_PAD)), wide)
  {
    hide InRange, SlotsFit;
  }

  lemma AskingKeeps(b: Table, wide: nat, key: GlyphKey)
    requires Good(b, wide) && wide < WIDE_LIMIT && key !in b.slots
    requires !PaddingWraps(RenderWidth(b, key), RenderHeight(b))
    ensures var (s, r) := Allocate(ShelfOf(b), RenderWidth(b, key), RenderHeight(b));
      var wide' := if IsWide(ShelfOf(b), RenderWidth(b, key)) then wide + 1 else wide;
      && Good(WithShelf(b, s), wide')
      && (r.Some? && b.hasContext ==> Good(WithShelf(b, s).(slots := b.slots[key := r.value]), wide'))
  {
    hide InRange, SlotsFit, Allocate, IsWide, PaddingWraps, RenderWidth, RenderHeight;
    SlotsFitAfter(b.slots, ShelfOf(b), RenderWidth(b, key), RenderHeight(b), wide);
    var (s, r) := Allocate(ShelfOf(b), RenderWidth(b, key), RenderHeight(b));
    assert ShelfOf(WithShelf(b, s)) == s;
  }

  /** One call keeps the live slots on the canvas and apart. */
  lemma StepKeeps(a: Table, wide: nat, e: Event)
    requires Good(a, wide) && wide < WIDE_LIMIT && EventOk(e) && !Wraps(a, e)
    ensures Good(Step(a, e), NextWide(a, wide, e))
  {
    hide Good, InRange, SlotsFit, Allocate, IsWide, PaddingWraps, RenderWidth, RenderHeight, WithMetrics, HasCodePoint;
    match e
    case Glyph(key, m, browser) =>
      MetricsKeep(a, wide, key, m, browser);
      var b := WithMetrics(a, m, browser);
      if key !in b.slots {
        AskingKeeps(b, if Clears(a, e) then 0 else wide, key);
      }
    case Invalidation => ClearedIsGood(a);
    case CanvasSize(size, browser) => CanvasKeeps(a, wide, size, browser);
  }

  lemma MetricsKeepKeys(a: Table, key: GlyphKey, m: Metrics, browser: Browser)
    ensures WithMetrics(a, m, browser).slots == if Clears(a, Glyph(key, m, browser)) then map[] else a.slots
  {
    hide Clamped;
  }

  /** A call that does not clear the table leaves every key its slot; one that does leaves at most its own. */
  lemma StepKeepsKeys(a: Table, e: Event)
    ensures var kept := if Clears(a, e) then map[] else a.slots;
      if e.Glyph? then
        var r := Requested(a, e.key, e.metrics, e.browser).1;
        && Step(a, e).slots == (if r.Some? then kept[e.key := r.value] else kept)
        && (e.key in kept ==> r == Some(kept[e.key]))
      else Step(a, e).slots == kept
  {
    hide Allocate, RenderWidth, RenderHeight, WithMetrics, HasCodePoint, Clamped;
    match e
    case Glyph(key, m, browser) =>
      MetricsKeepKeys(a, key, m, browser);
      var b := WithMetrics(a, m, browser);
      if key in b.slots {
        assert b.slots[key := b.slots[key]] == b.slots;
      }
    case _ =>
  }

  /**
    After any sequence of glyph requests, invalidations and resizes whose padding never wraps and
    which holds fewer wide requests between clearings than the limit, all live slots lie on the
    canvas with their padding and no two overlap.
   */
  lemma {:induction false} RunKeepsSlotsApart(a: Table, wide: nat, events: seq<Event>)
    requires Good(a, wide) && Sound(a, wide, events)
    ensures Good(Run(a, events), WideAfter(a, wide, events))
    ensures SlotsFit(Run(a, events).slots, ShelfOf(Run(a, events)))
    decreases |events|
  {
    hide SlotsFit, InRange, Step, NextWide, Wraps;
    if events != [] {
      StepKeeps(a, wide, events[0]);
      RunKeepsSlotsApart(Step(a, events[0]), NextWide(a, wide, events[0]), events[1..]);
    }
  }

  /** No event of the run clears the table. */
  predicate NeverClears(a: Table, events: seq<Event>)
    decreases |events|
  {
    events != [] ==> !Clears(a, events[0]) && NeverClears(Step(a, events[0]), events[1..])
  }

  /** Until the table is cleared a key keeps the slot it has, whatever else is asked for. */
  lemma {:induction false} RunKeepsKeys(a: Table, events: seq<Event>, key: GlyphKey)
    requires NeverClears(a, events) && key in a.slots
    ensures key in Run(a, events).slots && Run(a, events).slots[key] == a.slots[key]
    decreases |events|
  {
    hide Clears, Step;
    if events != [] {
      StepKeepsKeys(a, events[0]);
      RunKeepsKeys(Step(a, events[0]), events[1..], key);
    }
  }

  // ---------------------------------------------------------------------------------------
  // Ordinary metrics
  // ---------------------------------------------------------------------------------------

  /** Cells of less than 2^30 pixels, a bound a caller can check. */
  const ORDINARY: nat := 0x4000_0000

  predicate Ordinary(e: Event) {
    e.Glyph? ==>
      && e.metrics.width < ORDINARY && e.metrics.height < ORDINARY
      && e.metrics.wideWidth < ORDINARY && e.metrics.overhang < ORDINARY
  }

  predicate OrdinaryTable(a: Table) {
    a.cellWidth < ORDINARY && a.cellHeight < ORDINARY && a.wideCellWidth < ORDINARY && a.horizPad < ORDINARY
  }

  lemma OrdinaryStep(a: Table, e: Event)
    requires OrdinaryTable(a) && Ordinary(e)
    ensures OrdinaryTable(AskedOf(a, e)) && OrdinaryTable(Step(a, e))
  {
    hide Allocate, HasCodePoint, RenderWidth, RenderHeight, Clamped;
  }

  lemma OrdinaryNeverWraps(a: Table, key: GlyphKey)
    requires OrdinaryTable(a)
    ensures !PaddingWraps(RenderWidth(a, key), RenderHeight(a))
  {
    WrapSmall(a.horizPad * 2);
    WrapSmall(Max(if key.wide then a.wideCellWidth else a.cellWidth, 1) + a.horizPad * 2);
    WrapSmall(Max(a.cellHeight, 1) + VERT_PAD);
    hide Wrap, Saturate;
  }

  lemma {:induction false} OrdinaryRunsAreSound(a: Table, wide: nat, events: seq<Event>)
    requires OrdinaryTable(a) && wide + |events| < WIDE_LIMIT
    requires forall i :: 0 <= i < |events| ==> Ordinary(events[i])
    ensures Sound(a, wide, events)
    decreases |events|
  {
    hide Step, IsWide, ShelfOf, RenderWidth, RenderHeight, PaddingWraps, WithMetrics, OrdinaryTable;
    if events != [] {
      var e := events[0];
      OrdinaryStep(a, e);
      if e.Glyph? {
        OrdinaryNeverWraps(AskedOf(a, e), e.key);
      }
      OrdinaryRunsAreSound(Step(a, e), NextWide(a, wide, e), events[1..]);
    }
  }

  /** From a new atlas, any fewer than about 2^32 calls with ordinary metrics keep the slots apart. */
  lemma NewAtlasKeepsSlotsApart(events: seq<Event>)
    requires |events| < WIDE_LIMIT && forall i :: 0 <= i < |events| ==> Ordinary(events[i])
    ensures SlotsFit(Run(NEW_TABLE, events).slots, ShelfOf(Run(NEW_TABLE, events)))
  {
    hide Good, SlotsFit, Run, Sound;
    NewIsGood();
    OrdinaryRunsAreSound(NEW_TABLE, 0, events);
    RunKeepsSlotsApart(NEW_TABLE, 0, events);
  }

  /** Why there is a limit: once the shelf has drifted far enough its 32-bit sum wraps around. */
  lemma DriftedShelfMisplaces(s: Shelf, width: nat, height: nat)
    requires MIN_SIZE <= s.size <= MAX_SIZE && s.nextX == PADDING && width + 4 * PADDING < s.size
    requires height + 2 * PADDING < s.size && MODULUS - (height + 2 * PADDING) <= s.nextY < MODULUS
    ensures var r := Allocate(s, width, height).1; r.Some? && !Inside(r.value, s.size)
  {
    WrapSmall(width + 2 * PADDING);
    WrapSmall(height + 2 * PADDING);
    WrapSmall(s.nextX + width + 2 * PADDING);
    assert Wrap(s.nextY + height + 2 * PADDING) == s.nextY + height + 2 * PADDING - MODULUS;
    hide Wrap, Saturate;
  }

  // ---------------------------------------------------------------------------------------
  // The object
  // ---------------------------------------------------------------------------------------

  class Atlas {
    var slots: map<GlyphKey, Slot>
    var nextX: nat
    var nextY: nat
    var rowHeight: nat
    var cellWidth: nat
    var cellHeight: nat
    var wideCellWidth: nat
    var horizPad: nat
    var cachedSize: nat
    var hasCanvas: bool
    var hasContext: bool

    function View(): Table
      reads this
    {
      Table(slots, nextX, nextY, rowHeight, cellWidth, cellHeight,
          wideCellWidth, horizPad, cachedSize, hasCanvas, hasContext)
    }

    constructor ()
      ensures View() == NEW_TABLE && Good(View(), 0)
    {
      NewIsGood();
      slots, nextX, nextY, rowHeight := map[], 0, 0, 0;
      cellWidth, cellHeight, wideCellWidth, horizPad, cachedSize := 0, 0, 0, 0, 0;
      hasCanvas, hasContext := false, false;
    }

    method Invalidate()
      modifies this
      ensures View() == Invalidated(old(View())) && slots == map[]
      ensures old(Typed(View())) ==> Good(View(), 0)
    {
      if Typed(View()) {
        ClearedIsGood(View());
      }
      hide Good;
      slots := map[];
      nextX, nextY, rowHeight := PADDING, PADDING, 0;
      cellWidth, cellHeight, wideCellWidth, horizPad := 0, 0, 0, MIN_HORIZ_PAD;
    }

    /** The table is cleared exactly when a canvas is replaced; success means the canvas is ready. */
    method EnsureCanvasSized(size: nat, browser: Browser) returns (ok: bool)
      modifies this
      ensures View() == WithCanvas(old(View()), size, browser)
      ensures ok == CanvasReady(View(), size) == (old(CanvasReady(View(), size)) || old(Obtainable(View(), browser)))
      ensures slots == if old(Replaces(View(), size, browser)) then map[] else old(slots)
    {
      var clamped := Clamped(size);
      if cachedSize == clamped && hasCanvas && hasContext {
        return true;
      }
      if !browser.document {
        return false;
      }
      if !hasCanvas && !browser.canvas {
        return false;
      }
      if !hasContext && !browser.context {
        hasCanvas := false;
        return false;
      }
      hasCanvas, hasContext, cachedSize := true, true, clamped;
      slots := map[];
      nextX, nextY, rowHeight := PADDING, PADDING, 0;
      ok := true;
    }

    /** The table is cleared exactly when the canvas is replaced or the metrics have changed. */
    method EnsureMetrics(m: Metrics, browser: Browser) returns (ok: bool)
      modifies this
      ensures View() == WithMetrics(old(View()), m, browser)
      ensures ok ==> Measured(View(), m)
    {
      hide Clamped;
      ok := EnsureCanvasSized(SizeOf(View()), browser);
      if !ok {
        return;
      }
      if cellWidth != m.width || cellHeight != m.height || wideCellWidth != m.wideWidth {
        Invalidate();
        cellWidth, cellHeight, wideCellWidth := m.width, m.height, m.wideWidth;
        if hasContext {
          horizPad := Max(m.overhang, MIN_HORIZ_PAD);
        }
      }
    }

    /** A slot handed out is on the canvas and disjoint from every live one. */
    method AllocateSlot(width: nat, height: nat, ghost wide: nat) returns (r: Option<Slot>)
      modifies this`nextX, this`nextY, this`rowHeight
      ensures var (s, answer) := Allocate(ShelfOf(old(View())), width, height);
        View() == WithShelf(old(View()), s) && r == answer
      ensures old(Good(View(), wide)) && wide < WIDE_LIMIT && !PaddingWraps(width, height) && r.Some? ==>
        && Inside(r.value, SizeOf(View())) && forall k :: k in slots ==> Disjoint(slots[k], r.value)
    {
      hide Allocate, Inside, Disjoint, PaddingWraps, Good;
      if Good(View(), wide) && wide < WIDE_LIMIT && !PaddingWraps(width, height) {
        SlotIsApart(View(), width, height, wide);
      }
      var after;
      after, r := PlaceOnShelf(ShelfOf(View()), width, height);
      nextX, nextY, rowHeight := after.nextX, after.nextY, after.rowHeight;
    }

    /**
      A glyph request.  While fewer than the limit of requests were wide and this one's padding
      does not wrap, the live slots stay on the canvas and apart; the other keys keep theirs, and
      so does this one if it has one, unless the call clears the table.
     */
    method EnsureGlyph(key: GlyphKey, m: Metrics, browser: Browser, ghost wide: nat) returns (r: Option<Slot>)
      requires MetricsOk(m)
      modifies this
      ensures (View(), r) == Requested(old(View()), key, m, browser)
      ensures var e := Glyph(key, m, browser); var before := old(View());
        && (Good(before, wide) && wide < WIDE_LIMIT && !Wraps(before, e) ==> Good(View(), NextWide(before, wide, e)))
        && NextWide(before, wide, e) <= wide + 1
        && var kept := if Clears(before, e) then map[] else before.slots;
           && slots == (if r.Some? then kept[key := r.value] else kept)
           && (key in kept ==> r == Some(kept[key]))
    {
      ghost var before, e := View(), Glyph(key, m, browser);
      hide Good, Allocate, WithMetrics, RenderWidth, RenderHeight, HasCodePoint, Wraps, Clears, AsksWide;
      StepKeepsKeys(before, e);
      if Good(before, wide) && wide < WIDE_LIMIT && !Wraps(before, e) {
        StepKeeps(before, wide, e);
      }
      r := Answer(key, m, browser);
    }

    /** The steps of a request. */
    method Answer(key: GlyphKey, m: Metrics, browser: Browser) returns (r: Option<Slot>)
      modifies this
      ensures (View(), r) == Requested(old(View()), key, m, browser)
    {
      hide Allocate, WithMetrics, RenderWidth, RenderHeight, HasCodePoint, Good;
      var _ := EnsureMetrics(m, browser);
      if key in slots {
        return Some(slots[key]);
      }
      var renderWidth, renderHeight := RenderWidth(View(), key), RenderHeight(View());
      r := AllocateSlot(renderWidth, renderHeight, WIDE_LIMIT);
      if r.None? || !hasContext || !HasCodePoint(key) {
        return None;
      }
      slots := slots[key := r.value];
    }
  }

  lemma SlotIsApart(a: Table, width: nat, height: nat, wide: nat)
    requires Good(a, wide) && wide < WIDE_LIMIT && !PaddingWraps(width, height)
    ensures var r := Allocate(ShelfOf(a), width, height).1;
      r.Some? ==> Inside(r.value, SizeOf(a)) && forall k :: k in a.slots ==> Disjoint(a.slots[k], r.value)
  {
    AllocateKeepsShelves(ShelfOf(a), width, height, wide, a.slots.Values);
    hide Allocate, InRange, Inside, Shelved, Disjoint;
    assert forall k :: k in a.slots ==> a.slots[k] in a.slots.Values;
  }
}
