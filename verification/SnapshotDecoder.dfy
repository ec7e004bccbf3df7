/** The snapshot decoder and the renderer's feeds as they run: a cursor over the payload. */
module SnapshotDecoder {
  import opened Common
  import opened Bytes
  import opened RendererState
  import F = SnapshotFormat
  import opened Snapshot
  import opened SnapshotState

  class Cursor {
    const bytes: seq<Byte>
    var offset: nat

    predicate Valid()
      reads this
    {
      offset <= |bytes|
    }

    function Rest(): seq<Byte>
      requires Valid()
      reads this
    {
      bytes[offset..]
    }

    constructor (bytes: seq<Byte>)
      ensures Valid() && Rest() == bytes
    {
      this.bytes := bytes;
      offset := 0;
    }

    method Take(len: nat) returns (r: Option<seq<Byte>>)
      requires Valid()
      modifies this
      ensures Valid() && r == ValueOf(F.Take(old(Rest()), len))
      ensures Rest() == if r.Some? then F.Take(old(Rest()), len).rest else old(Rest())
    {
      var end := offset + len;
      if end > |bytes| {
        return None;
      }
      r := Some(bytes[offset..end]);
      assert bytes[offset..][..len] == bytes[offset..end] && bytes[offset..][len..] == bytes[end..];
      offset := end;
    }

    method U8() returns (r: Option<Byte>)
      requires Valid()
      modifies this
      ensures Valid() && r == ValueOf(F.GetU8(old(Rest())))
      ensures r.Some? ==> Rest() == F.GetU8(old(Rest())).rest
    {
      var taken := Take(1);
      r := if taken.Some? then Some(taken.value[0]) else None;
    }

    method U16() returns (r: Option<nat>)
      requires Valid()
      modifies this
      ensures Valid() && r == ValueOf(F.GetU16(old(Rest())))
      ensures r.Some? ==> Rest() == F.GetU16(old(Rest())).rest
    {
      var taken := Take(2);
      r := if taken.Some? then Some(FromU16(taken.value)) else None;
    }

    method U32() returns (r: Option<nat>)
      requires Valid()
      modifies this
      ensures Valid() && r == ValueOf(F.GetU32(old(Rest())))
      ensures r.Some? ==> Rest() == F.GetU32(old(Rest())).rest
    {
      var taken := Take(4);
      r := if taken.Some? then Some(FromU32(taken.value)) else None;
    }

    method IsEmpty() returns (empty: bool)
      requires Valid()
      ensures empty <==> Rest() == []
    {
      empty := offset == |bytes|;
    }
  }

  function ValueOf<T>(p: F.Parsed<T>): Option<T> { if p.Got? then Some(p.value) else None }

  // ---------------------------------------------------------------------------------------
  // The front
  // ---------------------------------------------------------------------------------------

  /** The head is six numbers, one after another. */
  lemma HeadFields(b: seq<Byte>)
    ensures var g0 := F.GetU16(b);
      var g1 := if g0.Fail? then F.Fail else F.GetU16(g0.rest);
      var g2 := if g1.Fail? then F.Fail else F.GetU16(g1.rest);
      var g3 := if g2.Fail? then F.Fail else F.GetU16(g2.rest);
      var g4 := if g3.Fail? then F.Fail else F.GetU16(g3.rest);
      var g5 := if g4.Fail? then F.Fail else F.GetU16(g4.rest);
      GetHead(b)
      == if g5.Fail? then F.Fail
         else F.Got(Head(g0.value, g1.value, g2.value, g3.value, g4.value, g5.value), g5.rest)
  {
    hide FromU16;
    if |b| >= 12 {
      assert b[2..][..2] == b[2..4] && b[2..][2..] == b[4..] && b[4..][..2] == b[4..6] && b[4..][2..] == b[6..];
      assert b[6..][..2] == b[6..8] && b[6..][2..] == b[8..] && b[8..][..2] == b[8..10] && b[8..][2..] == b[10..];
      assert b[10..][..2] == b[10..12] && b[10..][2..] == b[12..];
    }
  }

  method ReadHead(cursor: Cursor) returns (r: Option<Head>)
    requires cursor.Valid()
    modifies cursor
    ensures cursor.Valid() && r == ValueOf(GetHead(old(cursor.Rest())))
    ensures r.Some? ==> cursor.Rest() == GetHead(old(cursor.Rest())).rest
  {
    hide FromU16, F.GetU16;
    ghost var b := cursor.Rest();
    HeadFields(b);
    var rows := cursor.U16();
    if rows.None? { return None; }
    var cols := cursor.U16();
    if cols.None? { return None; }
    var cursorRow := cursor.U16();
    if cursorRow.None? { return None; }
    var cursorCol := cursor.U16();
    if cursorCol.None? { return None; }
    var mode := cursor.U16();
    if mode.None? { return None; }
    var field := cursor.U16();
    if field.None? { return None; }
    r := Some(Head(rows.value, cols.value, cursorRow.value, cursorCol.value, mode.value, field.value));
  }

  /** After one field was compared, what is still expected stands for what was expected. */
  predicate Reduced(expected: seq<Byte>, before: seq<Byte>, ok: bool, tail: seq<Byte>, after: seq<Byte>) {
    && (ok ==> (expected <= before <==> tail <= after))
    && (ok && tail <= after ==> expected <= before && before[|expected|..] == after[|tail|..])
    && (!ok ==> !(expected <= before))
  }

  lemma PrefixSplit(a: seq<Byte>, b: seq<Byte>, c: seq<Byte>)
    ensures Reduced(a + b, c, a <= c, b, if a <= c then c[|a|..] else c)
  {
    if a <= c {
      assert c == a + c[|a|..];
      if a + b <= c {
        assert c[..|a + b|] == a + b;
        assert c[|a|..][..|b|] == b;
      }
      if b <= c[|a|..] {
        assert c[|a|..] == b + c[|a|..][|b|..];
        assert c == (a + b) + c[|a|..][|b|..];
      }
    } else {
      assert a <= a + b;
      assert a + b <= c ==> a <= c;
    }
  }

  method ExpectU16(cursor: Cursor, k: nat, ghost tail: seq<Byte>) returns (ok: bool)
    requires cursor.Valid() && k < 0x1_0000
    modifies cursor
    ensures cursor.Valid() && Reduced(U16(k) + tail, old(cursor.Rest()), ok, tail, cursor.Rest())
  {
    ghost var b := cursor.Rest();
    U16Length(k);
    U16RoundTrip(k);
    hide FromU16, U16;
    PrefixSplit(U16(k), tail, b);
    hide Reduced;
    var v := cursor.U16();
    ok := v == Some(k);
    if |b| >= 2 {
      U16Inverse(b[..2]);
    }
    if !ok {
      NotReduced(U16(k), tail, b, cursor.Rest());
    }
  }

  lemma NotReduced(a: seq<Byte>, tail: seq<Byte>, b: seq<Byte>, after: seq<Byte>)
    requires !(a <= b)
    ensures Reduced(a + tail, b, false, tail, after)
  {
    PrefixSplit(a, tail, b);
  }

  lemma U16Length(k: nat)
    requires k < 0x1_0000
    ensures |U16(k)| == 2
  {
  }

  method ExpectU8(cursor: Cursor, k: Byte, ghost tail: seq<Byte>) returns (ok: bool)
    requires cursor.Valid()
    modifies cursor
    ensures cursor.Valid() && Reduced([k] + tail, old(cursor.Rest()), ok, tail, cursor.Rest())
  {
    ghost var b := cursor.Rest();
    PrefixSplit([k], tail, b);
    hide Reduced;
    var v := cursor.U8();
    ok := v == Some(k);
    if !ok {
      NotReduced([k], tail, b, cursor.Rest());
    }
  }

  method ExpectBlank(cursor: Cursor, ghost tail: seq<Byte>) returns (ok: bool)
    requires cursor.Valid()
    modifies cursor
    ensures cursor.Valid() && Reduced(BlankCell() + tail, old(cursor.Rest()), ok, tail, cursor.Rest())
  {
    ghost var b := cursor.Rest();
    PrefixSplit(BlankCell(), tail, b);
    hide Reduced;
    assert |BlankCell()| == CELL_SIZE;
    assert BlankCell() <= b ==> b[..CELL_SIZE] == BlankCell();
    var blank := cursor.Take(CELL_SIZE);
    ok := blank == Some(BlankCell());
    if !ok {
      NotReduced(BlankCell(), tail, b, cursor.Rest());
    }
  }

  method ReadBitmap(cursor: Cursor, total: nat) returns (ok: bool)
    requires cursor.Valid()
    modifies cursor
    ensures cursor.Valid() && (ok <==> Bitmap(total) <= old(cursor.Rest()))
    ensures ok ==> cursor.Rest() == old(cursor.Rest())[|Bitmap(total)|..]
  {
    var bitmap := cursor.Take(BitmapLen(total));
    if bitmap.None? {
      return false;
    }
    var index := 0;
    while index < |bitmap.value|
      invariant 0 <= index <= |bitmap.value|
      invariant forall i :: 0 <= i < index ==> bitmap.value[i] == Bitmap(total)[i]
    {
      if bitmap.value[index] != BitmapByte(total, index) {
        assert Bitmap(total)[index] == BitmapByte(total, index);
        return false;
      }
      index := index + 1;
    }
    ok := true;
    assert bitmap.value == Bitmap(total);
  }

  /** Compares the operations field by field. */
  method ReadOperations(cursor: Cursor, rows: nat, cols: nat) returns (ok: bool)
    requires cursor.Valid() && rows < 0x1_0000 && cols < 0x1_0000
    modifies cursor
    ensures cursor.Valid() && (ok <==> Operations(rows, cols) <= old(cursor.Rest()))
    ensures ok ==> cursor.Rest() == old(cursor.Rest())[|Operations(rows, cols)|..]
  {
    hide U16, Bitmap, BlankCell;
    ghost var t8 := Bitmap(rows * cols);
    ghost var t7 := [F.OP_PATCH_CELLS] + t8;
    ghost var t6 := BlankCell() + t7;
    ghost var t5 := U16(cols) + t6;
    ghost var t4 := U16(rows) + t5;
    ghost var t3 := U16(0) + t4;
    ghost var t2 := U16(0) + t3;
    ghost var t1 := [F.OP_FILL_RECT] + t2;
    assert Operations(rows, cols) == U16(2) + t1;
    hide Operations;
    ok := ExpectU16(cursor, 2, t1);
    if !ok { return; }
    ok := ExpectU8(cursor, F.OP_FILL_RECT, t2);
    if !ok { return; }
    ok := ExpectU16(cursor, 0, t3);
    if !ok { return; }
    ok := ExpectU16(cursor, 0, t4);
    if !ok { return; }
    ok := ExpectU16(cursor, rows, t5);
    if !ok { return; }
    ok := ExpectU16(cursor, cols, t6);
    if !ok { return; }
    ok := ExpectBlank(cursor, t7);
    if !ok { return; }
    ok := ExpectU8(cursor, F.OP_PATCH_CELLS, t8);
    if !ok { return; }
    ok := ReadBitmap(cursor, rows * cols);
  }

  // ---------------------------------------------------------------------------------------
  // Cells, tables and link runs
  // ---------------------------------------------------------------------------------------

  /** Writes one plane into the cell buffer, in place. */
  method ScatterPlane(cells: array<Byte>, values: seq<Byte>, plane: nat)
    requires cells.Length == |values| * CELL_SIZE && plane < CELL_SIZE
    modifies cells
    ensures forall c :: 0 <= c < |values| ==> cells[c * CELL_SIZE + plane] == values[c]
    ensures forall i :: 0 <= i < cells.Length && i % CELL_SIZE != plane ==> cells[i] == old(cells[i])
  {
    var cell := 0;
    while cell < |values|
      invariant 0 <= cell <= |values|
      invariant forall c :: 0 <= c < cell ==> cells[c * CELL_SIZE + plane] == values[c]
      invariant forall i :: 0 <= i < cells.Length && i % CELL_SIZE != plane ==> cells[i] == old(cells[i])
    {
      cells[cell * CELL_SIZE + plane] := values[cell];
      cell := cell + 1;
    }
  }

  /** The planes read so far are in the cell buffer. */
  predicate Scattered(cells: seq<Byte>, taken: seq<seq<Byte>>, total: nat) {
    && |cells| == total * CELL_SIZE && |taken| <= CELL_SIZE
    && (forall p :: 0 <= p < |taken| ==> |taken[p]| == total)
    && (forall p, c :: 0 <= p < |taken| && 0 <= c < total ==> cells[c * CELL_SIZE + p] == taken[p][c])
  }

  lemma ScatterMore(before: seq<Byte>, after: seq<Byte>, taken: seq<seq<Byte>>, values: seq<Byte>, total: nat)
    requires Scattered(before, taken, total) && |taken| < CELL_SIZE && |values| == total && |after| == |before|
    requires forall c :: 0 <= c < total ==> after[c * CELL_SIZE + |taken|] == values[c]
    requires forall i :: 0 <= i < |after| && i % CELL_SIZE != |taken| ==> after[i] == before[i]
    ensures Scattered(after, taken + [values], total)
  {
    var more := taken + [values];
    forall p, c | 0 <= p < |more| && 0 <= c < total ensures after[c * CELL_SIZE + p] == more[p][c] {
      if p < |taken| {
        assert more[p] == taken[p] && before[c * CELL_SIZE + p] == taken[p][c];
        assert (c * CELL_SIZE + p) % CELL_SIZE == p;
      }
    }
  }

  /** Plane `p` is the `p`-th stretch of the payload. */
  predicate Slices(b: seq<Byte>, taken: seq<seq<Byte>>, total: nat) {
    forall p :: 0 <= p < |taken| ==> p * total + total <= |b| && taken[p] == b[p * total..p * total + total]
  }

  lemma AllScattered(cells: seq<Byte>, b: seq<Byte>, taken: seq<seq<Byte>>, total: nat)
    requires Scattered(cells, taken, total) && Slices(b, taken, total) && |taken| == CELL_SIZE
    ensures total * CELL_SIZE <= |b| && cells == Transposed(b[..total * CELL_SIZE], total)
  {
    assert taken[CELL_SIZE - 1] == taken[11] && 11 * total + total == total * CELL_SIZE;
    var planes := b[..total * CELL_SIZE];
    hide Transposed;
    forall i | 0 <= i < |cells| ensures cells[i] == Transposed(planes, total)[i] {
      var p, c := i % CELL_SIZE, i / CELL_SIZE;
      PlaneIndex(total, p, c);
      assert cells[c * CELL_SIZE + p] == taken[p][c] == b[p * total + c];
    }
  }

  method TakeAt(cursor: Cursor, n: nat, ghost b: seq<Byte>, ghost at: nat) returns (r: Option<seq<Byte>>)
    requires cursor.Valid() && at <= |b| && cursor.Rest() == b[at..]
    modifies cursor
    ensures cursor.Valid() && (r.Some? <==> at + n <= |b|)
    ensures r.Some? ==> r.value == b[at..at + n] && cursor.Rest() == b[at + n..]
  {
    r := cursor.Take(n);
  }

  /** Twelve planes, each scattered into the cell buffer. */
  method ReadPlanes(cursor: Cursor, total: nat) returns (r: Option<seq<Byte>>)
    requires cursor.Valid()
    modifies cursor
    ensures cursor.Valid()
    ensures match F.Take(old(cursor.Rest()), total * CELL_SIZE)
      case Fail => r.None?
      case Got(planes, rest) => r == Some(Transposed(planes, total)) && cursor.Rest() == rest
  {
    hide Transposed, Scattered, Slices;
    ghost var b := cursor.Rest();
    var cells := new Byte[total * CELL_SIZE];
    ghost var taken: seq<seq<Byte>> := [];
    StartScatter(cells[..], b, total);
    var plane := 0;
    ghost var at: nat := 0;
    while plane < CELL_SIZE
      invariant 0 <= plane <= CELL_SIZE && cursor.Valid() && |taken| == plane
      invariant at == plane * total <= |b| && cursor.Rest() == b[at..]
      invariant Scattered(cells[..], taken, total) && Slices(b, taken, total)
    {
      PlanesGrow(total, plane);
      var values := TakeAt(cursor, total, b, at);
      if values.None? {
        return None;
      }
      ghost var before := cells[..];
      ScatterPlane(cells, values.value, plane);
      ScatterMore(before, cells[..], taken, values.value, total);
      MoreSlices(b, taken, total, at);
      taken := taken + [values.value];
      plane, at := plane + 1, at + total;
    }
    AllScattered(cells[..], b, taken, total);
    r := Some(cells[..]);
  }

  lemma StartScatter(cells: seq<Byte>, b: seq<Byte>, total: nat)
    requires |cells| == total * CELL_SIZE
    ensures Scattered(cells, [], total) && Slices(b, [], total)
  {
  }

  lemma MoreSlices(b: seq<Byte>, taken: seq<seq<Byte>>, total: nat, at: nat)
    requires Slices(b, taken, total) && at == |taken| * total && at + total <= |b|
    ensures Slices(b, taken + [b[at..at + total]], total)
  {
  }

  lemma PlanesGrow(total: nat, n: nat)
    requires n < CELL_SIZE
    ensures (n + 1) * total == n * total + total <= total * CELL_SIZE
  {
    assert total * CELL_SIZE == (n + 1) * total + (CELL_SIZE - 1 - n) * total;
  }

  lemma KeysOf(seen: seq<F.Entry>, key: nat)
    ensures key in F.EntryMap(seen) <==> F.HasKey(seen, key)
  {
    F.EntryMapKeys(seen);
  }

  method ReadEntry(cursor: Cursor, t: F.Table) returns (r: Option<F.Entry>)
    requires cursor.Valid()
    modifies cursor
    ensures cursor.Valid() && r == ValueOf(F.GetEntry(t, old(cursor.Rest())))
    ensures r.Some? ==> cursor.Rest() == F.GetEntry(t, old(cursor.Rest())).rest
  {
    hide F.GetU16, F.GetU32, F.Take, F.IsUtf8;
    var key;
    if t.Overflow? {
      key := cursor.U32();
    } else {
      key := cursor.U16();
    }
    if key.None? { return None; }
    var len := cursor.U16();
    if len.None? { return None; }
    var text := cursor.Take(len.value);
    if text.None? || !F.IsUtf8(text.value) { return None; }
    r := Some(F.Entry(key.value, text.value));
  }

  /** Reads `count` entries into a map; a forbidden or repeated key rejects the payload. */
  method ReadTable(
      cursor: Cursor, t: F.Table, count: nat)
      returns (r: Option<map<nat, seq<Byte>>>, ghost es: seq<F.Entry>)
    requires cursor.Valid()
    modifies cursor
    ensures cursor.Valid()
    ensures match F.GetEntries(t, old(cursor.Rest()), count, [])
      case Fail => r.None?
      case Got(entries, rest) => es == entries && r == Some(F.EntryMap(entries)) && cursor.Rest() == rest
  {
    hide F.GetEntry, F.HasKey, F.EntryMap, F.GetEntries;
    ghost var b := cursor.Rest();
    var m: map<nat, seq<Byte>> := map[];
    es := [];
    var i := 0;
    NoEntries();
    while i < count
      invariant 0 <= i <= count && cursor.Valid()
      invariant m == F.EntryMap(es)
      invariant F.GetEntries(t, cursor.Rest(), count - i, es) == F.GetEntries(t, b, count, [])
    {
      EntriesStep(t, cursor.Rest(), count - i, es);
      var e := ReadEntry(cursor, t);
      if e.None? {
        return None, es;
      }
      KeysOf(es, e.value.key);
      if !F.KeyAllowed(t, e.value.key) || e.value.key in m {
        return None, es;
      }
      m := m[e.value.key := e.value.text];
      es := es + [e.value];
      i := i + 1;
    }
    NoMoreEntries(t, cursor.Rest(), es);
    r := Some(m);
  }

  lemma NoEntries()
    ensures F.EntryMap([]) == map[]
  {
  }

  lemma NoMoreEntries(t: F.Table, b: seq<Byte>, es: seq<F.Entry>)
    ensures F.GetEntries(t, b, 0, es) == F.Got(es, b)
  {
  }

  lemma EntriesStep(t: F.Table, b: seq<Byte>, n: nat, es: seq<F.Entry>)
    requires n > 0
    ensures var g := F.GetEntry(t, b);
      && F.GetEntries(t, b, n, es) == (if g.Got? && F.KeyAllowed(t, g.value.key) && !F.HasKey(es, g.value.key)
                                      then F.GetEntries(t, g.rest, n - 1, es + [g.value]) else F.Fail)
      && (g.Got? ==> F.EntryMap(es + [g.value]) == F.EntryMap(es)[g.value.key := g.value.text])
  {
    hide F.GetEntry, F.HasKey;
    var g := F.GetEntry(t, b);
    if g.Got? {
      assert (es + [g.value])[..|es|] == es;
    }
  }

  lemma {:induction false} FillAppend(links: seq<nat>, rs: seq<F.Run>, r: F.Run)
    requires forall i :: 0 <= i < |rs| ==> rs[i].start + rs[i].len <= |links|
    requires r.start + r.len <= |links|
    ensures F.Fill(links, rs + [r]) == F.FillRun(F.Fill(links, rs), r)
    decreases |rs|
  {
    if rs == [] {
      assert [r][1..] == [];
    } else {
      assert (rs + [r])[1..] == rs[1..] + [r];
      FillAppend(F.FillRun(links, rs[0]), rs[1..], r);
    }
  }

  /** What the runs still to read add to those already read. */
  function MoreRuns(done: seq<F.Run>, p: F.Parsed<seq<F.Run>>): F.Parsed<seq<F.Run>> {
    match p case Fail => F.Fail case Got(rs, rest) => F.Got(done + rs, rest)
  }

  lemma MoreRunsStep(total: nat, uris: map<nat, seq<Byte>>, b: seq<Byte>, n: nat, done: seq<F.Run>)
    requires n > 0
    ensures var g := F.GetRun(b);
      MoreRuns(done, F.GetRuns(total, uris, b, n))
      == if g.Got? && F.RunAllowed(total, uris, g.value)
         then MoreRuns(done + [g.value], F.GetRuns(total, uris, g.rest, n - 1)) else F.Fail
  {
    var g := F.GetRun(b);
    if g.Got? && F.RunAllowed(total, uris, g.value) {
      var p := F.GetRuns(total, uris, g.rest, n - 1);
      if p.Got? {
        assert done + ([g.value] + p.value) == (done + [g.value]) + p.value;
      }
    }
  }

  method ReadRun(cursor: Cursor) returns (r: Option<F.Run>)
    requires cursor.Valid()
    modifies cursor
    ensures cursor.Valid() && r == ValueOf(F.GetRun(old(cursor.Rest())))
    ensures r.Some? ==> cursor.Rest() == F.GetRun(old(cursor.Rest())).rest
  {
    hide F.GetU16, F.GetU32;
    var start := cursor.U32();
    if start.None? { return None; }
    var len := cursor.U16();
    if len.None? { return None; }
    var id := cursor.U16();
    if id.None? { return None; }
    r := Some(F.Run(start.value, len.value, id.value));
  }

  method ReadLinks(
      cursor: Cursor, total: nat, uris: map<nat, seq<Byte>>, count: nat)
      returns (r: Option<seq<nat>>, ghost done: seq<F.Run>)
    requires cursor.Valid()
    modifies cursor
    ensures cursor.Valid()
    ensures match F.GetRuns(total, uris, old(cursor.Rest()), count)
      case Fail => r.None?
      case Got(runs, rest) =>
        && done == runs && cursor.Rest() == rest
        && (forall i :: 0 <= i < |runs| ==> runs[i].start + runs[i].len <= total)
        && r == Some(F.Fill(Zeros(total), runs))
  {
    hide F.GetRun, F.FillRun;
    ghost var b := cursor.Rest();
    var links := Zeros(total);
    done := [];
    var i := 0;
    assert MoreRuns([], F.GetRuns(total, uris, b, count)) == F.GetRuns(total, uris, b, count) by {
      if F.GetRuns(total, uris, b, count).Got? {
        assert [] + F.GetRuns(total, uris, b, count).value == F.GetRuns(total, uris, b, count).value;
      }
    }
    while i < count
      invariant 0 <= i <= count && cursor.Valid() && |links| == total
      invariant forall k :: 0 <= k < |done| ==> done[k].start + done[k].len <= total
      invariant links == F.Fill(Zeros(total), done)
      invariant MoreRuns(done, F.GetRuns(total, uris, cursor.Rest(), count - i)) == F.GetRuns(total, uris, b, count)
    {
      MoreRunsStep(total, uris, cursor.Rest(), count - i, done);
      hide F.GetRuns;
      var run := ReadRun(cursor);
      if run.None? {
        return None, done;
      }
      if !F.RunAllowed(total, uris, run.value) {
        return None, done;
      }
      FillAppend(Zeros(total), done, run.value);
      links := F.FillRun(links, run.value);
      done := done + [run.value];
      i := i + 1;
    }
    assert done + [] == done;
    r := Some(links);
  }

  // ---------------------------------------------------------------------------------------
  // The whole payload
  // ---------------------------------------------------------------------------------------

  method ReadFront(cursor: Cursor) returns (r: Option<(Head, seq<Byte>, seq<Byte>)>, ghost f: Front)
    requires cursor.Valid()
    modifies cursor
    ensures cursor.Valid()
    ensures match GetFront(old(cursor.Rest()))
      case Fail => r.None?
      case Got(front, rest) =>
        && f == front && cursor.Rest() == rest && |front.planes| == Total(front.head) * CELL_SIZE
        && r == Some((front.head, front.title, Transposed(front.planes, Total(front.head))))
  {
    hide GetHead, F.Take, F.IsUtf8, Operations, Transposed, GeometryOk, FlagsOk;
    f := Front(Head(0, 0, 0, 0, 0, 0), [], []);
    ghost var b := cursor.Rest();
    var head := ReadHead(cursor);
    if head.None? { return None, f; }
    HeadIsSmall(b);
    if !GeometryOk(head.value) || !FlagsOk(head.value.field) { return None, f; }
    var title := cursor.Take(TitleLen(head.value.field));
    if title.None? || !F.IsUtf8(title.value) { return None, f; }
    var ok := ReadOperations(cursor, head.value.rows, head.value.cols);
    if !ok { return None, f; }
    ghost var b3 := cursor.Rest();
    var cells := ReadPlanes(cursor, Total(head.value));
    if cells.None? { return None, f; }
    f := Front(head.value, title.value, F.Take(b3, Total(head.value) * CELL_SIZE).value);
    TakeLength(b3, Total(head.value) * CELL_SIZE);
    r := Some((head.value, title.value, cells.value));
  }

  lemma HeadIsSmall(b: seq<Byte>)
    requires GetHead(b).Got?
    ensures GetHead(b).value.rows < 0x1_0000 && GetHead(b).value.cols < 0x1_0000
  {
  }

  lemma TakeLength(b: seq<Byte>, n: nat)
    requires F.Take(b, n).Got?
    ensures |F.Take(b, n).value| == n
  {
  }

  method ReadStrings(cursor: Cursor, h: Head) returns (r: Option<map<nat, seq<Byte>>>, ghost es: seq<F.Entry>)
    requires cursor.Valid()
    modifies cursor
    ensures cursor.Valid()
    ensures match GetStrings(h, old(cursor.Rest()))
      case Fail => r.None?
      case Got(entries, rest) => es == entries && r == Some(F.EntryMap(entries)) && cursor.Rest() == rest
  {
    hide F.GetU16, F.GetEntries, F.EntryMap;
    NoEntries();
    es := [];
    if !HasStrings(h.field) {
      return Some(map[]), [];
    }
    var count := cursor.U16();
    if count.None? || count.value > Total(h) {
      return None, es;
    }
    r, es := ReadTable(cursor, F.Overflow(Total(h)), count.value);
  }

  datatype TableValues = TableValues(
    overflow: map<nat, seq<Byte>>, lineFlags: seq<Byte>, scrollback: nat, uris: map<nat, seq<Byte>>, links: seq<nat>)

  method ReadTables(cursor: Cursor, h: Head) returns (r: Option<TableValues>, ghost t: Tables)
    requires cursor.Valid()
    modifies cursor
    ensures cursor.Valid()
    ensures match GetTables(h, old(cursor.Rest()))
      case Fail => r.None?
      case Got(tables, rest) =>
        && t == tables && cursor.Rest() == rest
        && (forall i :: 0 <= i < |t.runs| ==> t.runs[i].start + t.runs[i].len <= Total(h))
        && r == Some(TableValues(F.EntryMap(t.strings), t.lineFlags,
              t.scrollback, F.EntryMap(t.uris), F.Fill(Zeros(Total(h)), t.runs)))
  {
    hide F.GetU16, F.GetU32, F.Take, F.GetEntries, F.GetRuns, F.EntryMap, F.Fill, GetStrings;
    t := Tables([], [], 0, [], []);
    var overflow, strings := ReadStrings(cursor, h);
    if overflow.None? { return None, t; }
    var lineFlags := cursor.Take(h.rows);
    if lineFlags.None? { return None, t; }
    var scrollback := cursor.U32();
    if scrollback.None? { return None, t; }
    var uriCount := cursor.U16();
    if uriCount.None? { return None, t; }
    var uris, uriEntries := ReadTable(cursor, F.Uris, uriCount.value);
    if uris.None? { return None, t; }
    var runCount := cursor.U16();
    if runCount.None? { return None, t; }
    var links, runs := ReadLinks(cursor, Total(h), uris.value, runCount.value);
    if links.None? { return None, t; }
    t := Tables(strings, lineFlags.value, scrollback.value, uriEntries, runs);
    r := Some(TableValues(overflow.value, lineFlags.value, scrollback.value, uris.value, links.value));
  }

  /** `decode_snapshot`: the loops compute the decoding function. */
  method DecodePayload(payload: seq<Byte>) returns (r: Option<State>)
    ensures r == DecodeSnapshot(payload)
  {
    hide GetFront, GetTables, F.EntryMap, F.Fill, Transposed, WireFits, Encode;
    var cursor := new Cursor(payload);
    var front, f := ReadFront(cursor);
    if front.None? { return None; }
    var h := front.value.0;
    ghost var b1 := cursor.Rest();
    var tables, t := ReadTables(cursor, h);
    if tables.None? { return None; }
    var v := tables.value;
    ghost var b2 := cursor.Rest();
    var done := cursor.IsEmpty();
    var keyboardFlags: Byte := 0;
    if !done {
      var flags := cursor.U8();
      keyboardFlags := flags.value;
      var end := cursor.IsEmpty();
      if keyboardFlags >= 32 || !end { return None; }
    }
    ghost var w := Wire(f, t, GetKeyboard(b2).value);
    assert ParseWire(payload) == Some(w);
    ParseIsEncode(payload, w);
    GeometryOfFront(payload, w);
    r := Some(State(h.rows, h.cols, Clamp(h.cursorRow, h.rows), Clamp(h.cursorCol, h.cols), h.mode, keyboardFlags,
                    front.value.1, front.value.2, v.overflow, v.lineFlags, v.scrollback, v.links, v.uris));
  }

  lemma GeometryOfFront(b: seq<Byte>, w: Wire)
    requires WireFits(w)
    ensures w.front.head.rows > 0 && w.front.head.cols > 0
  {
  }

  // ---------------------------------------------------------------------------------------
  // Feeding
  // ---------------------------------------------------------------------------------------

  const MAX_DECOMPRESSED: nat := 64 * 1024 * 1024

  /** LZ4 decompression, which may fail. */
  type Lz4 = seq<Byte> -> Option<seq<Byte>>

  /** The payload a compressed frame carries, if it is accepted as a frame at all. */
  function Payload(data: seq<Byte>, lz4: Lz4): Option<seq<Byte>> {
    if |data| < 4 || FromU32(data[..4]) > MAX_DECOMPRESSED then None else lz4(data)
  }

  /** The state a frame leads to, if it is accepted. */
  function Accepted(data: seq<Byte>, lz4: Lz4): Option<State> {
    match Payload(data, lz4) case None => None case Some(p) => DecodeSnapshot(p)
  }

  /** A batch is a list of length-prefixed frames, up to a zero length or a short frame. */
  function Frames(b: seq<Byte>): seq<seq<Byte>>
    decreases |b|
  {
    match F.GetU32(b)
    case Fail => []
    case Got(len, rest) =>
      if len == 0 then []
      else match F.Take(rest, len) case Fail => [] case Got(frame, more) => [frame] + Frames(more)
  }

  /** The state after a list of frames: that of the last accepted one. */
  function AfterFrames(s: State, frames: seq<seq<Byte>>, lz4: Lz4): State
    decreases |frames|
  {
    if frames == [] then s
    else AfterFrames(if Accepted(frames[0], lz4).Some? then Accepted(frames[0], lz4).value else s, frames[1..], lz4)
  }

  predicate AnyAccepted(frames: seq<seq<Byte>>, lz4: Lz4) {
    exists i :: 0 <= i < |frames| && Accepted(frames[i], lz4).Some?
  }

  /** The renderer object. */
  class Renderer {
    var state: State

    constructor (rows: nat, cols: nat)
      ensures Consistent(state) && state == NewState(rows, cols)
    {
      NewIsConsistent(rows, cols);
      state := NewState(rows, cols);
    }

    method ApplySnapshot(payload: seq<Byte>) returns (changed: bool)
      requires Consistent(state)
      modifies this
      ensures Consistent(state) && (changed <==> DecodeSnapshot(payload).Some?)
      ensures state == if changed then DecodeSnapshot(payload).value else old(state)
    {
      hide DecodeSnapshot, Consistent;
      var next := DecodePayload(payload);
      if next.None? {
        return false;
      }
      AcceptedIsConsistent(payload);
      state := next.value;
      changed := true;
    }

    method FeedCompressed(data: seq<Byte>, lz4: Lz4) returns (changed: bool)
      requires Consistent(state)
      modifies this
      ensures Consistent(state) && (changed <==> Accepted(data, lz4).Some?)
      ensures state == if changed then Accepted(data, lz4).value else old(state)
    {
      hide DecodeSnapshot, Consistent;
      if |data| < 4 {
        return false;
      }
      var declared := FromU32(data[..4]);
      if declared > MAX_DECOMPRESSED {
        return false;
      }
      var payload := lz4(data);
      if payload.None? {
        return false;
      }
      changed := ApplySnapshot(payload.value);
    }

    method FeedCompressedBatch(batch: seq<Byte>, lz4: Lz4) returns (changed: bool)
      requires Consistent(state)
      modifies this
      ensures Consistent(state) && (changed <==> AnyAccepted(Frames(batch), lz4))
      ensures state == AfterFrames(old(state), Frames(batch), lz4)
    {
      hide Accepted, Consistent, AnyAccepted;
      var cursor := new Cursor(batch);
      changed := false;
      NothingAccepted(lz4);
      ghost var done: seq<seq<Byte>> := [];
      assert [] + Frames(batch) == Frames(batch);
      while true
        invariant cursor.Valid() && Consistent(state) && fresh(cursor)
        invariant done + Frames(cursor.Rest()) == Frames(batch)
        invariant state == AfterFrames(old(state), done, lz4)
        invariant changed <==> AnyAccepted(done, lz4)
        decreases |cursor.Rest()|
      {
        ghost var rest := cursor.Rest();
        FramesStep(rest, done);
        hide Frames;
        var len := cursor.U32();
        if len.None? || len.value == 0 {
          break;
        }
        var frame := cursor.Take(len.value);
        if frame.None? {
          break;
        }
        AcceptedStep(old(state), done, frame.value, lz4);
        var accepted := FeedCompressed(frame.value, lz4);
        changed := changed || accepted;
        done := done + [frame.value];
      }
      assert done + [] == done;
    }
  }

  lemma NothingAccepted(lz4: Lz4)
    ensures !AnyAccepted([], lz4)
  {
  }

  lemma FramesStep(b: seq<Byte>, done: seq<seq<Byte>>)
    ensures var g := F.GetU32(b);
      if g.Fail? || g.value == 0 || F.Take(g.rest, g.value).Fail? then Frames(b) == []
      else var t := F.Take(g.rest, g.value); |t.rest| < |b| && done + Frames(b) == (done + [t.value]) + Frames(t.rest)
  {
    var g := F.GetU32(b);
    if g.Got? && g.value != 0 && F.Take(g.rest, g.value).Got? {
      var t := F.Take(g.rest, g.value);
      assert done + ([t.value] + Frames(t.rest)) == (done + [t.value]) + Frames(t.rest);
    }
  }

  lemma AcceptedStep(s: State, done: seq<seq<Byte>>, frame: seq<Byte>, lz4: Lz4)
    ensures var a := Accepted(frame, lz4);
      && AfterFrames(s, done + [frame], lz4) == (if a.Some? then a.value else AfterFrames(s, done, lz4))
      && (AnyAccepted(done + [frame], lz4) <==> AnyAccepted(done, lz4) || a.Some?)
  {
    hide Accepted;
    AfterAppend(s, done, frame, lz4);
    var more := done + [frame];
    if AnyAccepted(done, lz4) {
      var i :| 0 <= i < |done| && Accepted(done[i], lz4).Some?;
      assert more[i] == done[i];
    }
    if Accepted(frame, lz4).Some? {
      assert more[|done|] == frame;
    }
  }

  lemma {:induction false} AfterAppend(s: State, done: seq<seq<Byte>>, frame: seq<Byte>, lz4: Lz4)
    ensures AfterFrames(s, done + [frame], lz4)
         == if Accepted(frame, lz4).Some? then Accepted(frame, lz4).value else AfterFrames(s, done, lz4)
    decreases |done|
  {
    hide Accepted;
    if done == [] {
      assert [frame][1..] == [] && [] + [frame] == [frame];
    } else {
      assert (done + [frame])[1..] == done[1..] + [frame];
      AfterAppend(if Accepted(done[0], lz4).Some? then Accepted(done[0], lz4).value else s, done[1..], frame, lz4);
    }
  }

  /** Over any run of frames the state stays consistent, and rejected frames leave no trace. */
  lemma {:induction false} FeedsStayConsistent(s: State, frames: seq<seq<Byte>>, lz4: Lz4)
    requires Consistent(s)
    ensures Consistent(AfterFrames(s, frames, lz4))
    ensures !AnyAccepted(frames, lz4) ==> AfterFrames(s, frames, lz4) == s
    decreases |frames|
  {
    hide DecodeSnapshot, Consistent;
    if frames != [] {
      var a := Accepted(frames[0], lz4);
      if a.Some? {
        AcceptedIsConsistent(Payload(frames[0], lz4).value);
      }
      FeedsStayConsistent(if a.Some? then a.value else s, frames[1..], lz4);
      assert forall i :: 0 <= i < |frames[1..]| ==> frames[1..][i] == frames[i + 1];
    }
  }

  // ---------------------------------------------------------------------------------------
  // Batches in bytes
  // ---------------------------------------------------------------------------------------

  /** A frame is taken up only if it declares at most 64 MiB, lowest byte first. */
  lemma AcceptedSize(data: seq<Byte>, lz4: Lz4)
    ensures Accepted(data, lz4).Some? ==>
      && |data| >= 4 && lz4(data).Some? && Accepted(data, lz4) == DecodeSnapshot(lz4(data).value)
      && data[0] as int + 0x100 * data[1] as int + 0x1_0000 * data[2] as int + 0x100_0000 * data[3] as int <= 67_108_864
    ensures Accepted(data, lz4).None? && |data| >= 4 && lz4(data).Some? && DecodeSnapshot(lz4(data).value).Some? ==>
      data[0] as int + 0x100 * data[1] as int + 0x1_0000 * data[2] as int + 0x100_0000 * data[3] as int > 67_108_864
  {
    hide DecodeSnapshot;
  }

  /** Frames each behind their length in four bytes, and what follows them. */
  function BatchBytes(frames: seq<seq<Byte>>, tail: seq<Byte>): seq<Byte> {
    if frames == [] then tail else Le(|frames[0]|, 4) + frames[0] + BatchBytes(frames[1..], tail)
  }

  /** No whole frame follows: too few bytes, a length of 0, or fewer bytes than announced. */
  predicate Ends(tail: seq<Byte>) {
    |tail| < 4 || tail[..4] == [0, 0, 0, 0] || |tail| - 4 < FromU32(tail[..4])
  }

  /** A batch is read as the frames it was written from. */
  lemma {:induction false} BatchIsRead(frames: seq<seq<Byte>>, tail: seq<Byte>)
    requires Ends(tail) && forall i :: 0 <= i < |frames| ==> 1 <= |frames[i]| < 0x1_0000_0000
    ensures Frames(BatchBytes(frames, tail)) == frames
    decreases |frames|
  {
    hide FromU32, U32, Le;
    if frames == [] {
      if |tail| >= 4 {
        ZeroBytes();
      }
    } else {
      var f, more := frames[0], BatchBytes(frames[1..], tail);
      BatchIsRead(frames[1..], tail);
      LittleEndian(|f|);
      var b := BatchBytes(frames, tail);
      assert b == U32(|f|) + (f + more);
      F.GetU32IsU32(b, |f|, f + more);
      F.TakeIsAppend(f + more, |f|, f, more);
      hide F.GetU32, F.Take;
      assert [f] + frames[1..] == frames;
    }
  }

  lemma ZeroBytes()
    ensures FromU32([0, 0, 0, 0]) == 0
  {
  }

  /** The state after a list of frames is that of the last one accepted. */
  lemma {:induction false} LastAcceptedWins(s: State, frames: seq<seq<Byte>>, lz4: Lz4, i: nat)
    requires i < |frames| && Accepted(frames[i], lz4).Some?
    requires forall j :: i < j < |frames| ==> Accepted(frames[j], lz4).None?
    ensures AfterFrames(s, frames, lz4) == Accepted(frames[i], lz4).value
    decreases |frames|
  {
    hide Accepted;
    if i > 0 {
      LastAcceptedWins(if Accepted(frames[0], lz4).Some? then Accepted(frames[0], lz4).value else s,
          frames[1..], lz4, i - 1);
    } else {
      NoneAccepted(Accepted(frames[0], lz4).value, frames[1..], lz4);
    }
  }

  lemma {:induction false} NoneAccepted(s: State, frames: seq<seq<Byte>>, lz4: Lz4)
    requires forall j :: 0 <= j < |frames| ==> Accepted(frames[j], lz4).None?
    ensures AfterFrames(s, frames, lz4) == s
    decreases |frames|
  {
    hide Accepted;
    if frames != [] {
      assert forall j :: 0 <= j < |frames[1..]| ==> frames[1..][j] == frames[j + 1];
      NoneAccepted(s, frames[1..], lz4);
    }
  }
}
