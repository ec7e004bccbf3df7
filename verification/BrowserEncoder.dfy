/**
  The page's encoder: a decoded terminal grid written out as a renderer snapshot.  Exactly when
  the renderer accepts what it writes, and what the renderer then shows.
*/
module BrowserEncoder {
  import opened Common
  import opened Bytes
  import opened RendererState
  import opened SnapshotFormat
  import opened Snapshot
  import opened SnapshotState
  import Utf8

  type Str = seq<Utf8.CodeUnit>

  datatype OverflowText = OverflowText(index: nat, text: Str)

  datatype NativeUri = NativeUri(id: nat, text: Str)

  datatype NativeRun = NativeRun(start: nat, count: nat, id: nat)

  /** A decoded grid; overflow texts are listed by cell index, URIs in the order of their table. */
  datatype Native = Native(
    rows: nat, cols: nat, cursorRow: nat, cursorCol: nat, modes: nat, keyboardFlags: nat, scrollback: nat,
    title: Str, cells: seq<Byte>, lineFlags: seq<Byte>,
    overflow: seq<OverflowText>, uris: seq<NativeUri>, runs: seq<NativeRun>)

  function Area(g: Native): nat { g.rows * g.cols }

  /** What decoding a grid guarantees. */
  predicate NativeOk(g: Native) {
    && 0 < g.rows < 0x1_0000 && 0 < g.cols < 0x1_0000 && g.cursorRow < g.rows && g.cursorCol < g.cols
    && g.modes < 0x1_0000 && g.keyboardFlags < 32 && g.scrollback < 0x1_0000_0000
    && |g.cells| == Area(g) * CELL_SIZE && |g.lineFlags| == g.rows
    && (forall i :: 0 <= i < |g.overflow| ==> g.overflow[i].index < Area(g))
    && (forall i, j :: 0 <= i < j < |g.overflow| ==> g.overflow[i].index < g.overflow[j].index)
    && (forall i, j :: 0 <= i < j < |g.uris| ==> g.uris[i].id != g.uris[j].id)
    && (forall i :: 0 <= i < |g.runs| ==> g.runs[i].count > 0 && g.runs[i].start + g.runs[i].count <= Area(g))
  }

  const U16_MAX: nat := 0xFFFF
  const TITLE_MAX: nat := 0xFFF

  // ---------------------------------------------------------------------------------------
  // Cutting text
  // ---------------------------------------------------------------------------------------

  /** A cut of encoded text falls between characters exactly when no continuation byte follows. */
  predicate CleanCut(b: seq<Byte>, n: nat)
    requires n <= |b|
  {
    n == |b| || !Utf8.Continuation(b[n])
  }

  lemma ShapeOfChar(cp: Utf8.Scalar)
    ensures !Utf8.Continuation(Utf8.EncodeScalar(cp)[0])
    ensures forall n :: 0 < n < |Utf8.EncodeScalar(cp)| ==> Utf8.Continuation(Utf8.EncodeScalar(cp)[n])
  {
  }

  /** No character is a proper prefix of another. */
  lemma PartOfChar(cp: Utf8.Scalar, n: nat)
    requires 0 < n < |Utf8.EncodeScalar(cp)|
    ensures !IsUtf8(Utf8.EncodeScalar(cp)[..n])
  {
    hide Utf8.EncodeScalar, Utf8.Utf8Char, Utf8.FrontWidth, Utf8.FrontScalar;
    var c := Utf8.EncodeScalar(cp);
    var part := c[..n];
    Utf8.FrontOfEncoding(cp, []);
    assert c + [] == c;
    Utf8.FrontIsGrammar(c);
    Utf8.FrontIsGrammar(part);
    var w := Utf8.FrontWidth(part);
    assert part[..w] == c[..w];
  }

  lemma {:induction false} CutIsText(cps: seq<Utf8.Scalar>, n: nat)
    requires n <= |Utf8.EncodeScalars(cps)|
    ensures IsUtf8(Utf8.EncodeScalars(cps)[..n]) <==> CleanCut(Utf8.EncodeScalars(cps), n)
    decreases |cps|
  {
    hide Utf8.EncodeScalar, Utf8.FrontWidth, Utf8.FrontScalar, Utf8.Continuation;
    var b := Utf8.EncodeScalars(cps);
    if n == 0 {
      assert b[..n] == [];
      if cps != [] {
        ShapeOfChar(cps[0]);
        assert b[0] == Utf8.EncodeScalar(cps[0])[0];
      }
    } else {
      var c, more := Utf8.EncodeScalar(cps[0]), Utf8.EncodeScalars(cps[1..]);
      if n < |c| {
        assert b[..n] == c[..n] && b[n] == c[n];
        PartOfChar(cps[0], n);
        ShapeOfChar(cps[0]);
      } else {
        CutIsText(cps[1..], n - |c|);
        assert b[..n] == c + more[..n - |c|];
        Utf8.FrontOfEncoding(cps[0], more[..n - |c|]);
        assert n < |b| ==> b[n] == more[n - |c|];
      }
    }
  }

  /** The encoding of a string, cut at `n`, is text exactly when the cut is clean. */
  lemma CutOfString(text: Str, n: nat)
    requires n <= |Utf8.EncodeText(text)|
    ensures IsUtf8(Utf8.EncodeText(text)[..n]) <==> CleanCut(Utf8.EncodeText(text), n)
  {
    CutIsText(Utf8.ScalarsFrom(text, 0), n);
    hide IsUtf8, CleanCut;
  }

  /** The last clean cut at or below `n`. */
  function CutBack(b: seq<Byte>, n: nat): (end: nat)
    requires n <= |b|
    ensures end <= n && (end > 0 ==> CleanCut(b, end)) && forall k :: end < k <= n ==> !CleanCut(b, k)
  {
    if n > 0 && !CleanCut(b, n) then CutBack(b, n - 1) else n
  }

  /** `truncateUtf8`. */
  function Truncated(b: seq<Byte>, maximum: nat): (r: seq<Byte>)
    ensures |r| <= maximum && r <= b
  {
    if |b| <= maximum then b else b[..CutBack(b, maximum)]
  }

  method TruncateUtf8(bytes: seq<Byte>, maximum: nat) returns (r: seq<Byte>)
    ensures r == Truncated(bytes, maximum)
  {
    if |bytes| <= maximum {
      return bytes;
    }
    var end := maximum;
    while end > 0 && Utf8.Continuation(bytes[end])
      invariant 0 <= end <= maximum && CutBack(bytes, maximum) == CutBack(bytes, end)
    {
      end := end - 1;
    }
    r := bytes[..end];
  }

  /** Truncating a string's encoding gives the longest text that fits. */
  lemma TruncatedIsLongestText(text: Str, maximum: nat)
    ensures var b := Utf8.EncodeText(text); var r := Truncated(b, maximum);
      && IsUtf8(r)
      && forall k :: |r| < k <= |b| && k <= maximum ==> !IsUtf8(b[..k])
  {
    hide Utf8.EncodeText, IsUtf8;
    var b := Utf8.EncodeText(text);
    var r := Truncated(b, maximum);
    if |b| <= maximum {
      CutOfString(text, |b|);
      assert b[..|b|] == b;
    } else {
      var end := CutBack(b, maximum);
      CutOfString(text, end);
      if end == 0 {
        EmptyIsUtf8();
        assert b[..0] == [];
      }
      forall k | |r| < k <= |b| && k <= maximum ensures !IsUtf8(b[..k]) {
        CutOfString(text, k);
      }
    }
  }

  // ---------------------------------------------------------------------------------------
  // What is written
  // ---------------------------------------------------------------------------------------

  function TitleBytes(g: Native): seq<Byte> { Truncated(Utf8.EncodeText(g.title), TITLE_MAX) }

  /** An overflow text is cut at 65535 bytes wherever that falls. */
  function OverflowBytes(text: Str): (b: seq<Byte>)
    ensures |b| < 0x1_0000
  {
    var b := Utf8.EncodeText(text); b[..Min(|b|, U16_MAX)]
  }

  function Strings(g: Native): (es: seq<Entry>)
    ensures |es| == |g.overflow|
    ensures forall i :: 0 <= i < |es| ==> es[i] == Entry(g.overflow[i].index, OverflowBytes(g.overflow[i].text))
  {
    seq(|g.overflow|, i requires 0 <= i < |g.overflow| => Entry(g.overflow[i].index, OverflowBytes(g.overflow[i].text)))
  }

  /** The URIs that get a renderer id: the first 65535, numbered from 1. */
  function UriCount(g: Native): nat { Min(|g.uris|, U16_MAX) }

  function UriBytes(text: Str): seq<Byte> { Truncated(Utf8.EncodeText(text), U16_MAX) }

  function UriEntries(g: Native): (es: seq<Entry>)
    ensures |es| == UriCount(g)
    ensures forall i :: 0 <= i < |es| ==> es[i] == Entry(i + 1, UriBytes(g.uris[i].text))
  {
    seq(UriCount(g), i requires 0 <= i < UriCount(g) => Entry(i + 1, UriBytes(g.uris[i].text)))
  }

  /** The renderer id of a native id, looked for among the first `n` URIs; 0 if it has none. */
  function RendererId(g: Native, id: nat, n: nat): (r: nat)
    requires n <= UriCount(g)
    ensures r <= n && (r > 0 ==> g.uris[r - 1].id == id)
    ensures r == 0 ==> forall i :: 0 <= i < n ==> g.uris[i].id != id
  {
    if n == 0 then 0 else if g.uris[n - 1].id == id then n else RendererId(g, id, n - 1)
  }

  predicate RunKept(g: Native, r: NativeRun) { RendererId(g, r.id, UriCount(g)) > 0 && r.count <= U16_MAX }

  /** The runs that can be written, among the first `n`. */
  function Writable(g: Native, n: nat): (rs: seq<NativeRun>)
    requires n <= |g.runs|
    ensures |rs| <= n && forall i :: 0 <= i < |rs| ==> RunKept(g, rs[i]) && rs[i] in g.runs
  {
    if n == 0 then []
    else Writable(g, n - 1) + if RunKept(g, g.runs[n - 1]) then [g.runs[n - 1]] else []
  }

  /** The runs that are written: at most 65535 of them. */
  function Written(g: Native): (rs: seq<NativeRun>)
    ensures |rs| <= U16_MAX && forall i :: 0 <= i < |rs| ==> RunKept(g, rs[i]) && rs[i] in g.runs
  {
    var rs := Writable(g, |g.runs|); rs[..Min(|rs|, U16_MAX)]
  }

  function RunOf(g: Native, r: NativeRun): Run { Run(r.start, r.count, RendererId(g, r.id, UriCount(g))) }

  function Runs(g: Native): (rs: seq<Run>)
    ensures |rs| == |Written(g)| && forall i :: 0 <= i < |rs| ==> rs[i] == RunOf(g, Written(g)[i])
  {
    seq(|Written(g)|, i requires 0 <= i < |Written(g)| => RunOf(g, Written(g)[i]))
  }

  function Field(g: Native): (field: nat)
    ensures field < 0x1_0000 && FlagsOk(field)
    ensures (HasStrings(field) <==> g.overflow != []) && TitleLen(field) == |TitleBytes(g)|
  {
    FieldParts(g.overflow != [], |TitleBytes(g)|);
    TitleField(g.overflow != [], |TitleBytes(g)|)
  }

  function NativeHead(g: Native): Head { Head(g.rows, g.cols, g.cursorRow, g.cursorCol, g.modes, Field(g)) }

  function Planes(g: Native): seq<Byte>
    requires NativeOk(g)
  {
    PlanesTo(g.cells, Area(g), CELL_SIZE)
  }

  function WireOf(g: Native): Wire
    requires NativeOk(g)
  {
    Wire(Front(NativeHead(g), TitleBytes(g), Planes(g)),
         Tables(Strings(g), g.lineFlags, g.scrollback, UriEntries(g), Runs(g)),
         if g.keyboardFlags == 0 then None else Some(g.keyboardFlags))
  }

  predicate RawFits(e: Entry) { e.key < 0x1_0000_0000 && |e.text| < 0x1_0000 }

  /** The bytes of entries, whether or not their texts are UTF-8. */
  function RawEntries(es: seq<Entry>): seq<Byte>
    requires forall i :: 0 <= i < |es| ==> RawFits(es[i])
  {
    if es == [] then []
    else
      assert RawFits(es[0]);
      U32(es[0].key) + U16(|es[0].text|) + es[0].text + RawEntries(es[1..])
  }

  function RawStrings(g: Native): seq<Byte>
    requires NativeOk(g) && |g.overflow| <= U16_MAX
  {
    AreaFits(g);
    assert forall i :: 0 <= i < |Strings(g)| ==> RawFits(Strings(g)[i]);
    if g.overflow == [] then [] else U16(|g.overflow|) + RawEntries(Strings(g))
  }

  lemma AreaFits(g: Native)
    requires NativeOk(g)
    ensures 0 < Area(g) < 0x1_0000_0000
  {
    assert g.rows * g.cols <= g.rows * 0xFFFF;
  }

  lemma UrisAlwaysFit(g: Native)
    ensures UrisFit(UriEntries(g))
  {
    hide IsUtf8, Utf8.EncodeText;
    forall i | 0 <= i < |UriEntries(g)|
      ensures EntryFits(Uris, UriEntries(g)[i]) && KeyAllowed(Uris, UriEntries(g)[i].key)
    {
      TruncatedIsLongestText(g.uris[i].text, U16_MAX);
    }
  }

  lemma RunsAlwaysFit(g: Native)
    requires NativeOk(g)
    ensures forall i :: 0 <= i < |Runs(g)| ==> RunFits(Runs(g)[i]) && Runs(g)[i].start + Runs(g)[i].len <= Area(g)
  {
    AreaFits(g);
    hide RendererId, Written;
    forall i | 0 <= i < |Runs(g)| ensures RunFits(Runs(g)[i]) && Runs(g)[i].start + Runs(g)[i].len <= Area(g) {
      var r := Written(g)[i];
      var k :| 0 <= k < |g.runs| && g.runs[k] == r;
    }
  }

  /** What follows the cell planes. */
  function RawTables(g: Native): seq<Byte>
    requires NativeOk(g) && |g.overflow| <= U16_MAX
  {
    UrisAlwaysFit(g);
    RunsAlwaysFit(g);
    RawStrings(g) + (g.lineFlags + (U32(g.scrollback) + (PutUris(UriEntries(g)) + (U16(|Runs(g)|) + PutRuns(Runs(g))))))
  }

  function KeyboardByte(g: Native): seq<Byte>
    requires NativeOk(g)
  {
    if g.keyboardFlags == 0 then [] else [g.keyboardFlags]
  }

  /** The whole payload, before compression. */
  function Payload(g: Native): seq<Byte>
    requires NativeOk(g) && |g.overflow| <= U16_MAX
  {
    PutHead(NativeHead(g))
    + (TitleBytes(g) + (Operations(g.rows, g.cols) + (Planes(g) + (RawTables(g) + KeyboardByte(g)))))
  }

  // ---------------------------------------------------------------------------------------
  // When it is accepted
  // ---------------------------------------------------------------------------------------

  /** An overflow text of at most 65535 bytes, or one whose cut there falls between characters. */
  predicate CleanText(text: Str) {
    var b := Utf8.EncodeText(text); |b| <= U16_MAX || !Utf8.Continuation(b[U16_MAX])
  }

  predicate Accepts(g: Native) {
    Area(g) <= MAX_CELL_COUNT && forall i :: 0 <= i < |g.overflow| ==> CleanText(g.overflow[i].text)
  }

  lemma CleanTextIsText(text: Str)
    ensures IsUtf8(OverflowBytes(text)) <==> CleanText(text)
  {
    hide IsUtf8, Utf8.EncodeText, Utf8.Continuation;
    CutOfString(text, Min(|Utf8.EncodeText(text)|, U16_MAX));
  }

  function Letters(n: nat): seq<Utf8.Scalar> { seq(n, _ => 0x61) }

  lemma {:induction false} LettersEncode(n: nat)
    ensures |Utf8.EncodeScalars(Letters(n))| == n
  {
    if n > 0 {
      assert Letters(n)[1..] == Letters(n - 1);
      LettersEncode(n - 1);
    }
  }

  /** Such a text exists: letters up to the limit less one, then a character of two bytes. */
  lemma UncleanTextExists(n: nat) returns (text: Str)
    requires n == U16_MAX - 1
    ensures !CleanText(text)
  {
    var cps := Letters(n) + [0xE9];
    text := Utf8.Utf16(cps);
    Utf8.ScalarsOfUtf16(cps, []);
    assert [] + text == text;
    Utf8.EncodeAppend(Letters(n), 0xE9);
    LettersEncode(n);
    hide Letters, Utf8.EncodeScalars, Utf8.Utf16, Utf8.ScalarsFrom;
    assert Utf8.EncodeScalar(0xE9)[1] == 0xA9;
  }

  lemma {:induction false} DistinctBelow(overflow: seq<OverflowText>, bound: nat)
    requires forall i, j :: 0 <= i < j < |overflow| ==> overflow[i].index < overflow[j].index
    requires forall i :: 0 <= i < |overflow| ==> overflow[i].index < bound
    ensures |overflow| <= bound
    decreases |overflow|
  {
    if overflow != [] {
      DistinctBelow(overflow[..|overflow| - 1], overflow[|overflow| - 1].index);
    }
  }

  lemma StringsAreValid(g: Native)
    requires NativeOk(g) && |g.overflow| <= U16_MAX && Accepts(g)
    ensures StringsFit(NativeHead(g), Strings(g))
  {
    hide IsUtf8, OverflowBytes, TitleBytes, CleanText, TitleField;
    AreaFits(g);
    DistinctBelow(g.overflow, Area(g));
    var es := Strings(g);
    forall i | 0 <= i < |es| ensures EntryFits(Overflow(Area(g)), es[i]) && KeyAllowed(Overflow(Area(g)), es[i].key) {
      CleanTextIsText(g.overflow[i].text);
    }
  }

  lemma {:induction false} RawIsPut(total: nat, es: seq<Entry>)
    requires forall i :: 0 <= i < |es| ==> EntryFits(Overflow(total), es[i]) && RawFits(es[i])
    ensures RawEntries(es) == PutEntries(Overflow(total), es)
    decreases |es|
  {
    hide IsUtf8, U16, U32;
    if es != [] {
      RawIsPut(total, es[1..]);
    }
  }

  lemma EveryRunAllowed(g: Native)
    requires NativeOk(g)
    ensures LinksFit(Area(g), UriEntries(g), Runs(g))
  {
    RunsAlwaysFit(g);
    EntryMapKeys(UriEntries(g));
    hide RunFits, RendererId, Written, EntryMap, UriBytes;
    forall i | 0 <= i < |Runs(g)| ensures RunAllowed(Area(g), EntryMap(UriEntries(g)), Runs(g)[i]) {
      var r := Written(g)[i];
      var k :| 0 <= k < |g.runs| && g.runs[k] == r;
      var id := RendererId(g, r.id, UriCount(g));
      assert UriEntries(g)[id - 1].key == id;
    }
  }

  lemma FrontIsFit(g: Native)
    requires NativeOk(g) && Area(g) <= MAX_CELL_COUNT
    ensures FrontFits(WireOf(g).front) && Total(NativeHead(g)) == Area(g)
  {
    hide IsUtf8, Utf8.EncodeText, PlanesTo, FlagsOk, TitleLen, HasStrings, TitleField;
    TruncatedIsLongestText(g.title, TITLE_MAX);
    PlanesLength(g.cells, Area(g), CELL_SIZE);
  }

  lemma TablesAreFit(g: Native)
    requires NativeOk(g) && |g.overflow| <= U16_MAX && Accepts(g)
    ensures TablesFit(NativeHead(g), WireOf(g).tables)
  {
    hide StringsFit, UrisFit, LinksFit, Accepts, Planes, TitleBytes, Field;
    StringsAreValid(g);
    UrisAlwaysFit(g);
    EveryRunAllowed(g);
  }

  lemma RawTablesArePut(g: Native)
    requires NativeOk(g) && |g.overflow| <= U16_MAX && Accepts(g)
    ensures TablesFit(NativeHead(g), WireOf(g).tables) && RawTables(g) == PutTables(NativeHead(g), WireOf(g).tables)
  {
    hide StringsFit, UrisFit, ValidRuns, RunFits, Accepts, Planes, TitleBytes, RawStrings;
    hide PutStrings, PutRuns, PutUris, U16, U32, Field, UriEntries, Strings, Runs, NativeOk;
    TablesAreFit(g);
    var h, t := NativeHead(g), WireOf(g).tables;
    StringsPut(g);
    UrisAlwaysFit(g);
    RunsAlwaysFit(g);
    Regroup(RawStrings(g), g.lineFlags, U32(g.scrollback), PutUris(UriEntries(g)), U16(|Runs(g)|) + PutRuns(Runs(g)));
  }

  lemma StringsPut(g: Native)
    requires NativeOk(g) && |g.overflow| <= U16_MAX && StringsFit(NativeHead(g), Strings(g))
    ensures RawStrings(g) == PutStrings(NativeHead(g), Strings(g))
  {
    hide U16, RawEntries, PutEntries, EntryFits, TitleBytes, HasStrings, FlagsOk, TitleField, OverflowBytes;
    if g.overflow != [] {
      AreaFits(g);
      RawIsPut(Area(g), Strings(g));
    }
  }

  lemma Regroup(a: seq<Byte>, b: seq<Byte>, c: seq<Byte>, d: seq<Byte>, e: seq<Byte>)
    ensures a + (b + (c + (d + e))) == (a + b + c + d) + e
  {
  }

  /** A grid the renderer can take is written as the format's encoding of what it stands for. */
  lemma PayloadIsEncode(g: Native)
    requires NativeOk(g) && |g.overflow| <= U16_MAX && Accepts(g)
    ensures WireFits(WireOf(g)) && Payload(g) == Encode(WireOf(g))
  {
    hide FrontFits, TablesFit, CleanText, PutTables, RawTables, PutFront, PutHead, Operations;
    hide Planes, TitleBytes, Field;
    FrontIsFit(g);
    RawTablesArePut(g);
    var w := WireOf(g);
    PutFrontParts(w.front);
    Regroup(PutHead(NativeHead(g)), TitleBytes(g),
        Operations(g.rows, g.cols), Planes(g), RawTables(g) + KeyboardByte(g));
    assert PutFront(w.front) + (RawTables(g) + KeyboardByte(g)) == PutFront(w.front) + RawTables(g) + KeyboardByte(g);
  }

  lemma PutFrontParts(f: Front)
    requires FrontFits(f)
    ensures HeadFits(f.head) && f.head.rows < 0x1_0000 && f.head.cols < 0x1_0000
    ensures PutFront(f) == PutHead(f.head) + f.title + Operations(f.head.rows, f.head.cols) + f.planes
  {
    hide IsUtf8, Operations, PutHead;
  }

  // ---------------------------------------------------------------------------------------
  // When it is not
  // ---------------------------------------------------------------------------------------

  lemma GetRawEntry(total: nat, e: Entry, rest: seq<Byte>)
    requires RawFits(e)
    ensures GetEntry(Overflow(total), U32(e.key) + U16(|e.text|) + e.text + rest)
         == if IsUtf8(e.text) then Got(e, rest) else Fail
  {
    hide IsUtf8, U16, U32, GetU16, GetU32, Take;
    var b2 := e.text + rest;
    var b1 := U16(|e.text|) + b2;
    var b := U32(e.key) + b1;
    assert U32(e.key) + U16(|e.text|) + e.text + rest == b;
    GetU32IsU32(b, e.key, b1);
    GetU16IsU16(b1, |e.text|, b2);
    TakeIsAppend(b2, |e.text|, e.text, rest);
  }

  lemma {:induction false} BadEntryFails(total: nat, es: seq<Entry>, bad: nat, seen: seq<Entry>, rest: seq<Byte>)
    requires forall i :: 0 <= i < |es| ==> RawFits(es[i])
    requires bad < |es| && !IsUtf8(es[bad].text)
    ensures GetEntries(Overflow(total), RawEntries(es) + rest, |es|, seen).Fail?
    decreases |es|
  {
    hide IsUtf8, U16, U32, GetEntry;
    var more := RawEntries(es[1..]) + rest;
    var first := U32(es[0].key) + U16(|es[0].text|) + es[0].text;
    assert RawEntries(es) + rest == first + more;
    GetRawEntry(total, es[0], more);
    if bad > 0 {
      BadEntryFails(total, es[1..], bad - 1, seen + [es[0]], rest);
    }
  }

  lemma BadStringsFail(g: Native, bad: nat, rest: seq<Byte>)
    requires NativeOk(g) && |g.overflow| <= U16_MAX && bad < |g.overflow| && !CleanText(g.overflow[bad].text)
    ensures GetStrings(NativeHead(g), RawStrings(g) + rest).Fail?
  {
    hide IsUtf8, U16, GetU16, GetEntries, RawEntries, TitleField, OverflowBytes, TitleBytes, CleanText;
    AreaFits(g);
    var es := Strings(g);
    CleanTextIsText(g.overflow[bad].text);
    BadEntryFails(Area(g), es, bad, [], rest);
    var more := RawEntries(es) + rest;
    assert RawStrings(g) + rest == U16(|es|) + more;
    GetU16IsU16(U16(|es|) + more, |es|, more);
  }

  lemma TooLargeFails(g: Native)
    requires NativeOk(g) && |g.overflow| <= U16_MAX && Area(g) > MAX_CELL_COUNT
    ensures DecodeSnapshot(Payload(g)) == None
  {
    hide GetHead, PutHead, Operations, Planes, RawTables, TitleBytes, TitleField, FlagsOk, TitleLen, HasStrings, IsUtf8;
    var rest := TitleBytes(g) + (Operations(g.rows, g.cols) + (Planes(g) + (RawTables(g) + KeyboardByte(g))));
    GetHeadIsPut(Payload(g), NativeHead(g), rest);
  }

  lemma FrontIsRead(g: Native)
    requires NativeOk(g) && |g.overflow| <= U16_MAX && Area(g) <= MAX_CELL_COUNT
    ensures GetFront(Payload(g)) == Got(WireOf(g).front, RawTables(g) + KeyboardByte(g))
  {
    hide GetFront, FrontFits, PutFront, PutHead, Operations, Planes, RawTables, TitleBytes, Field;
    FrontIsFit(g);
    var front, tables := WireOf(g).front, RawTables(g) + KeyboardByte(g);
    PutFrontParts(front);
    Regroup(PutHead(NativeHead(g)), TitleBytes(g), Operations(g.rows, g.cols), Planes(g), tables);
    GetFrontIsPut(Payload(g), front, tables);
  }

  lemma UncleanTablesFail(g: Native, bad: nat)
    requires NativeOk(g) && |g.overflow| <= U16_MAX && bad < |g.overflow| && !CleanText(g.overflow[bad].text)
    ensures GetTables(NativeHead(g), RawTables(g) + KeyboardByte(g)).Fail?
  {
    hide RawStrings, TitleBytes, Field, CleanText, GetStrings, GetUris, GetLinks, PutUris, PutRuns;
    hide U16, U32, UrisFit, RunFits;
    UrisAlwaysFit(g);
    RunsAlwaysFit(g);
    var rest := g.lineFlags + (U32(g.scrollback) + (PutUris(UriEntries(g)) + (U16(|Runs(g)|) + PutRuns(Runs(g)))));
    assert RawTables(g) == RawStrings(g) + rest;
    assert (RawStrings(g) + rest) + KeyboardByte(g) == RawStrings(g) + (rest + KeyboardByte(g));
    BadStringsFail(g, bad, rest + KeyboardByte(g));
  }

  lemma UncleanFails(g: Native, bad: nat)
    requires NativeOk(g) && |g.overflow| <= U16_MAX && Area(g) <= MAX_CELL_COUNT
    requires bad < |g.overflow| && !CleanText(g.overflow[bad].text)
    ensures DecodeSnapshot(Payload(g)) == None
  {
    hide GetFront, GetTables, Payload, RawTables, NativeOk, CleanText;
    FrontIsRead(g);
    UncleanTablesFail(g, bad);
  }

  /**
    The renderer takes what the page writes exactly when the grid has no more cells than a
    frame may have and no overflow text is cut inside a character; it then holds what was meant.
   */
  lemma AcceptedExactly(g: Native)
    requires NativeOk(g) && |g.overflow| <= 65535
    ensures DecodeSnapshot(Payload(g)).Some? <==> Accepts(g)
    ensures Accepts(g) ==> WireFits(WireOf(g)) && DecodeSnapshot(Payload(g)) == Some(StateOf(WireOf(g)))
  {
    hide NativeOk, Payload, DecodeSnapshot, CleanText, WireOf, WireFits, Encode, StateOf;
    if Accepts(g) {
      PayloadIsEncode(g);
      DecodeIsEncode(Payload(g));
    } else if Area(g) > MAX_CELL_COUNT {
      TooLargeFails(g);
    } else {
      var bad :| 0 <= bad < |g.overflow| && !CleanText(g.overflow[bad].text);
      UncleanFails(g, bad);
    }
  }

  /** The limits in numbers: half a million cells, and no continuation byte at 65535 of an overflow text. */
  lemma AcceptsInNumbers(g: Native)
    ensures Accepts(g) <==>
      && g.rows * g.cols <= 500_000
      && forall i :: 0 <= i < |g.overflow| ==>
           var b := Utf8.EncodeText(g.overflow[i].text); |b| <= 65535 || b[65535] / 64 != 2
  {
    hide Utf8.EncodeText;
    if Accepts(g) {
      forall i | 0 <= i < |g.overflow|
        ensures var b := Utf8.EncodeText(g.overflow[i].text); |b| <= 65535 || b[65535] / 64 != 2
      {
        assert CleanText(g.overflow[i].text);
      }
    }
  }

  // ---------------------------------------------------------------------------------------
  // What the renderer then shows
  // ---------------------------------------------------------------------------------------

  predicate RunCovers(r: NativeRun, i: nat) { r.start <= i < r.start + r.count }

  /** The last of the runs that covers a cell, or `before` if none does. */
  function LastCovering(rs: seq<NativeRun>, i: nat, before: Option<NativeRun>): Option<NativeRun> {
    if rs == [] then before else LastCovering(rs[1..], i, if RunCovers(rs[0], i) then Some(rs[0]) else before)
  }

  function IdOf(g: Native, r: Option<NativeRun>): nat {
    if r.None? then 0 else RendererId(g, r.value.id, UriCount(g))
  }

  lemma {:induction false} FillIsLast(
      g: Native, natives: seq<NativeRun>, rs: seq<Run>, links: seq<nat>, i: nat, before: Option<NativeRun>)
    requires |rs| == |natives| && (forall k :: 0 <= k < |rs| ==> rs[k] == RunOf(g, natives[k]))
    requires forall k :: 0 <= k < |rs| ==> rs[k].start + rs[k].len <= |links|
    requires i < |links| && links[i] == IdOf(g, before)
    ensures Fill(links, rs)[i] == IdOf(g, LastCovering(natives, i, before))
    decreases |rs|
  {
    hide RendererId, FillRun;
    if rs != [] {
      var now := if RunCovers(natives[0], i) then Some(natives[0]) else before;
      FillIsLast(g, natives[1..], rs[1..], FillRun(links, rs[0]), i, now);
    }
  }

  lemma {:induction false} EntryMapAt(es: seq<Entry>, i: nat)
    requires i < |es| && forall j, k :: 0 <= j < k < |es| ==> es[j].key != es[k].key
    ensures es[i].key in EntryMap(es) && EntryMap(es)[es[i].key] == es[i].text
    decreases |es|
  {
    var init := es[..|es| - 1];
    if i < |init| {
      EntryMapAt(init, i);
      assert es[i].key != es[|es| - 1].key;
    }
  }

  /** The URI the renderer has for a cell. */
  function UriShown(s: State, i: nat): Option<seq<Byte>>
    requires i < |s.cellLinks|
  {
    var id := s.cellLinks[i]; if id != 0 && id in s.linkUris then Some(s.linkUris[id]) else None
  }

  /** The URI the grid means for a cell: that of the last run over it that is written. */
  function UriMeant(g: Native, i: nat): Option<seq<Byte>> {
    var id := IdOf(g, LastCovering(Written(g), i, None));
    if id == 0 then None else Some(UriBytes(g.uris[id - 1].text))
  }

  lemma {:induction false} LastIsWritten(g: Native, rs: seq<NativeRun>, i: nat, before: Option<NativeRun>)
    requires forall k :: 0 <= k < |rs| ==> RunKept(g, rs[k])
    requires before.Some? ==> RunKept(g, before.value) && RunCovers(before.value, i)
    ensures var last := LastCovering(rs, i, before);
      && (last.Some? ==> RunKept(g, last.value) && RunCovers(last.value, i))
      && (last.None? <==> before.None? && forall k :: 0 <= k < |rs| ==> !RunCovers(rs[k], i))
    decreases |rs|
  {
    hide RendererId;
    if rs != [] {
      var now := if RunCovers(rs[0], i) then Some(rs[0]) else before;
      LastIsWritten(g, rs[1..], i, now);
      assert forall k :: 0 <= k < |rs[1..]| ==> rs[1..][k] == rs[k + 1];
      if RunCovers(rs[0], i) {
        assert now.Some?;
      } else if LastCovering(rs, i, before).None? {
        forall k | 0 <= k < |rs| ensures !RunCovers(rs[k], i) {
          if k > 0 {
            assert !RunCovers(rs[1..][k - 1], i);
          }
        }
      }
    }
  }

  lemma LinkIdArrives(g: Native, i: nat)
    requires NativeOk(g) && WireFits(WireOf(g)) && i < Area(g)
    ensures var s := StateOf(WireOf(g));
      |s.cellLinks| == Area(g) && s.cellLinks[i] == IdOf(g, LastCovering(Written(g), i, None))
  {
    hide WireFits, Planes, TitleBytes, Field, Fill, EntryMap, Transposed, RendererId, Written;
    hide NativeOk, RunFits, Strings, UriEntries;
    RunsAlwaysFit(g);
    FillIsLast(g, Written(g), Runs(g), Zeros(Area(g)), i, None);
  }

  lemma UriArrives(g: Native, id: nat)
    requires NativeOk(g) && WireFits(WireOf(g)) && 1 <= id <= UriCount(g)
    ensures var s := StateOf(WireOf(g)); id in s.linkUris && s.linkUris[id] == UriBytes(g.uris[id - 1].text)
  {
    hide WireFits, Planes, TitleBytes, Field, Fill, EntryMap, Transposed, Runs, NativeOk, Strings, UriBytes;
    EntryMapAt(UriEntries(g), id - 1);
  }

  /** Each cell shows the URI of the last written run over it, and no URI if there is none. */
  lemma LinksArrive(g: Native, i: nat)
    requires NativeOk(g) && WireFits(WireOf(g)) && i < Area(g)
    ensures var s := StateOf(WireOf(g)); |s.cellLinks| == Area(g) && UriShown(s, i) == UriMeant(g, i)
    ensures UriMeant(g, i).None? <==> forall k :: 0 <= k < |Written(g)| ==> !RunCovers(Written(g)[k], i)
  {
    hide WireFits, WireOf, StateOf, RendererId, Written, UriBytes, NativeOk;
    LinkIdArrives(g, i);
    LastIsWritten(g, Written(g), i, None);
    var id := IdOf(g, LastCovering(Written(g), i, None));
    if id != 0 {
      UriArrives(g, id);
    }
  }

  lemma {:induction false} AllRunsWritable(g: Native, n: nat)
    requires n <= |g.runs| && forall k :: 0 <= k < |g.runs| ==> RunKept(g, g.runs[k])
    ensures Writable(g, n) == g.runs[..n]
    decreases n
  {
    if n > 0 {
      AllRunsWritable(g, n - 1);
      assert g.runs[..n] == g.runs[..n - 1] + [g.runs[n - 1]];
    }
  }

  /** Every run is written exactly when they are few enough, short enough and all have URIs. */
  lemma AllRunsWritten(g: Native)
    ensures Written(g) == g.runs <==> |g.runs| <= 65535 && forall k :: 0 <= k < |g.runs| ==> RunKept(g, g.runs[k])
  {
    hide RunKept;
    if |g.runs| <= U16_MAX && forall k :: 0 <= k < |g.runs| ==> RunKept(g, g.runs[k]) {
      AllRunsWritable(g, |g.runs|);
    }
  }

  /** A run is kept exactly when it is short enough and one of the first 65535 URIs has its id. */
  lemma RunKeptInNumbers(g: Native, r: NativeRun)
    ensures RunKept(g, r) <==> r.count <= 65535 && exists u :: 0 <= u < |g.uris| && u < 65535 && g.uris[u].id == r.id
  {
    hide RendererId;
    var id := RendererId(g, r.id, UriCount(g));
    if id > 0 {
      assert g.uris[id - 1].id == r.id;
    }
  }

  /** A title arrives whole up to 4095 bytes, and otherwise as its longest beginning that is text. */
  lemma TitleArrives(g: Native)
    ensures var b, title := Utf8.EncodeText(g.title), TitleBytes(g);
      && title <= b && |title| <= 4095 && IsUtf8(title) && (|b| <= 4095 ==> title == b)
      && forall k :: |title| < k <= |b| && k <= 4095 ==> !IsUtf8(b[..k])
  {
    hide IsUtf8, Utf8.EncodeText, Truncated;
    TruncatedIsLongestText(g.title, TITLE_MAX);
    var b := Utf8.EncodeText(g.title);
    WholeIsText(g.title);
    assert b[..|b|] == b;
  }

  lemma WholeIsText(text: Str)
    ensures IsUtf8(Utf8.EncodeText(text))
  {
    Utf8.DecodeEncode(Utf8.ScalarsFrom(text, 0));
  }

  /** A link over more than 65535 cells is not written at all: its cells lose it. */
  lemma LongRunsLoseTheirLink(g: Native, r: NativeRun, i: nat)
    requires NativeOk(g) && WireFits(WireOf(g)) && i < Area(g)
    requires r in g.runs && RunCovers(r, i) && r.count > 65535
    requires forall k :: 0 <= k < |g.runs| && g.runs[k] != r ==> !RunCovers(g.runs[k], i)
    ensures |StateOf(WireOf(g)).cellLinks| == Area(g) && UriShown(StateOf(WireOf(g)), i) == None
  {
    hide WireFits, WireOf, StateOf, UriShown, UriMeant, RendererId;
    LinksArrive(g, i);
    forall k | 0 <= k < |Written(g)| ensures !RunCovers(Written(g)[k], i) {
      var w := Written(g)[k];
      var j :| 0 <= j < |g.runs| && g.runs[j] == w;
    }
  }

  /** Everything else arrives as it was, an overflow text cut at 65535 bytes. */
  lemma GridArrives(g: Native)
    requires NativeOk(g) && |g.overflow| <= U16_MAX && Accepts(g) && WireFits(WireOf(g))
    ensures var s := StateOf(WireOf(g));
      && s.rows == g.rows && s.cols == g.cols && s.cursorRow == g.cursorRow && s.cursorCol == g.cursorCol
      && s.mode == g.modes && s.keyboardFlags == g.keyboardFlags && s.scrollbackLines == g.scrollback
      && s.cells == g.cells && s.lineFlags == g.lineFlags && s.title == TitleBytes(g)
    ensures forall k :: 0 <= k < |g.overflow| ==>
      var o := StateOf(WireOf(g)).overflow;
      g.overflow[k].index in o && o[g.overflow[k].index] == OverflowBytes(g.overflow[k].text)
  {
    hide FrontFits, TablesFit, Accepts, TitleBytes, Field, Fill, EntryMap, Transposed, PlanesTo;
    hide Written, UriBytes, OverflowBytes;
    TransposeRestores(g.cells, Area(g));
    forall k | 0 <= k < |g.overflow|
      ensures var o := StateOf(WireOf(g)).overflow;
        g.overflow[k].index in o && o[g.overflow[k].index] == OverflowBytes(g.overflow[k].text)
    {
      EntryMapAt(Strings(g), k);
    }
  }

  // ---------------------------------------------------------------------------------------
  // The encoder's loops
  // ---------------------------------------------------------------------------------------

  /** The cells, read cell by cell and written plane by plane. */
  method EncodePlanes(cells: seq<Byte>, total: nat) returns (planes: seq<Byte>)
    requires |cells| == total * CELL_SIZE
    ensures planes == PlanesTo(cells, total, CELL_SIZE)
  {
    planes := [];
    var plane := 0;
    while plane < CELL_SIZE
      invariant 0 <= plane <= CELL_SIZE && planes == PlanesTo(cells, total, plane)
    {
      var one: seq<Byte> := [];
      var cell := 0;
      while cell < total
        invariant 0 <= cell <= total && |one| == cell
        invariant forall c :: 0 <= c < cell ==> one[c] == cells[c * CELL_SIZE + plane]
      {
        one := one + [cells[cell * CELL_SIZE + plane]];
        cell := cell + 1;
      }
      assert one == seq(total, c requires 0 <= c < total => cells[c * CELL_SIZE + (plane + 1) - 1]);
      planes := planes + one;
      plane := plane + 1;
    }
  }

  lemma {:induction false} RawAppend(es: seq<Entry>, e: Entry)
    requires RawFits(e) && forall i :: 0 <= i < |es| ==> RawFits(es[i])
    ensures RawEntries(es + [e]) == RawEntries(es) + (U32(e.key) + U16(|e.text|) + e.text)
    decreases |es|
  {
    hide U16, U32;
    var last := U32(e.key) + U16(|e.text|) + e.text;
    if es == [] {
      assert [e][1..] == [] && RawEntries([]) == [];
      assert last + [] == last && [] + last == last;
    } else {
      assert (es + [e])[1..] == es[1..] + [e];
      RawAppend(es[1..], e);
      assert RawFits(es[0]);
    }
  }

  method WriteOverflow(g: Native) returns (bytes: seq<Byte>)
    requires NativeOk(g) && |g.overflow| <= U16_MAX
    ensures bytes == RawStrings(g)
  {
    hide U16, U32, RawEntries, Utf8.EncodeText;
    AreaFits(g);
    if g.overflow == [] {
      return [];
    }
    ghost var es := Strings(g);
    bytes := [];
    RawNone();
    assert es[..0] == [];
    var i := 0;
    while i < |g.overflow|
      invariant 0 <= i <= |g.overflow|
      invariant (forall k :: 0 <= k < |es[..i]| ==> RawFits(es[..i][k])) && bytes == RawEntries(es[..i])
    {
      var text := Utf8.EncodeText(g.overflow[i].text);
      var cut := text[..Min(|text|, U16_MAX)];
      assert es[i] == Entry(g.overflow[i].index, cut) && RawFits(es[i]);
      assert es[..i + 1] == es[..i] + [es[i]];
      RawAppend(es[..i], es[i]);
      bytes := bytes + (U32(g.overflow[i].index) + U16(|cut|) + cut);
      i := i + 1;
    }
    assert es[..i] == es;
    bytes := U16(|g.overflow|) + bytes;
  }

  lemma RawNone()
    ensures RawEntries([]) == []
  {
  }

  lemma {:induction false} PutAppend(es: seq<Entry>, e: Entry)
    requires EntryFits(Uris, e) && forall i :: 0 <= i < |es| ==> EntryFits(Uris, es[i])
    ensures PutEntries(Uris, es + [e]) == PutEntries(Uris, es) + PutEntry(Uris, e)
    decreases |es|
  {
    hide PutEntry, EntryFits;
    if es == [] {
      assert [e][1..] == [] && PutEntries(Uris, []) == [];
      assert PutEntry(Uris, e) + [] == PutEntry(Uris, e) && [] + PutEntry(Uris, e) == PutEntry(Uris, e);
    } else {
      assert (es + [e])[1..] == es[1..] + [e];
      PutAppend(es[1..], e);
    }
  }

  predicate IsLinkIds(g: Native, linkIds: map<nat, nat>, n: nat)
    requires n <= UriCount(g)
  {
    && (forall id :: id in linkIds ==> RendererId(g, id, n) > 0 && linkIds[id] == RendererId(g, id, n))
    && (forall i :: 0 <= i < n ==> g.uris[i].id in linkIds)
  }

  lemma LinkIdsDecide(g: Native, linkIds: map<nat, nat>, id: nat)
    requires IsLinkIds(g, linkIds, UriCount(g))
    ensures id in linkIds <==> RendererId(g, id, UriCount(g)) > 0
    ensures id in linkIds ==> linkIds[id] == RendererId(g, id, UriCount(g))
  {
    var r := RendererId(g, id, UriCount(g));
    hide RendererId;
    if r > 0 {
      assert g.uris[r - 1].id in linkIds;
    }
  }

  lemma MoreLinkIds(g: Native, linkIds: map<nat, nat>, n: nat)
    requires n < UriCount(g) && IsLinkIds(g, linkIds, n)
    ensures IsLinkIds(g, linkIds[g.uris[n].id := n + 1], n + 1)
  {
    var more := linkIds[g.uris[n].id := n + 1];
    forall id | id in more ensures RendererId(g, id, n + 1) > 0 && more[id] == RendererId(g, id, n + 1) {
      if id != g.uris[n].id {
        assert id in linkIds;
      }
    }
  }

  /** The renderer ids, in a table. */
  method LinkIds(g: Native) returns (linkIds: map<nat, nat>)
    ensures IsLinkIds(g, linkIds, UriCount(g))
  {
    hide RendererId;
    linkIds := map[];
    var i := 0;
    while i < |g.uris| && i < U16_MAX
      invariant 0 <= i <= UriCount(g) && IsLinkIds(g, linkIds, i)
    {
      MoreLinkIds(g, linkIds, i);
      linkIds := linkIds[g.uris[i].id := i + 1];
      i := i + 1;
    }
  }

  /** The URIs, under their renderer ids. */
  method WriteUris(g: Native) returns (bytes: seq<Byte>)
    requires NativeOk(g)
    ensures UrisFit(UriEntries(g)) && bytes == PutUris(UriEntries(g))
  {
    hide UriBytes, Utf8.EncodeText, EntryFits, PutEntries, U16, NativeOk;
    UrisAlwaysFit(g);
    ghost var es := UriEntries(g);
    bytes := [];
    NoEntriesPut();
    assert es[..0] == [];
    var i := 0;
    while i < |g.uris| && i < U16_MAX
      invariant 0 <= i <= UriCount(g) == |es|
      invariant (forall k :: 0 <= k < i ==> EntryFits(Uris, es[k])) && bytes == PutEntries(Uris, es[..i])
    {
      bytes := WriteUri(g, i, es, bytes);
      i := i + 1;
    }
    assert es[..i] == es;
    bytes := U16(i) + bytes;
  }

  lemma NoEntriesPut()
    ensures PutEntries(Uris, []) == []
  {
  }

  method WriteUri(g: Native, i: nat, ghost es: seq<Entry>, before: seq<Byte>) returns (bytes: seq<Byte>)
    requires NativeOk(g) && i < UriCount(g) && es == UriEntries(g) && UrisFit(es)
    requires (forall k :: 0 <= k < i ==> EntryFits(Uris, es[k])) && before == PutEntries(Uris, es[..i])
    ensures (forall k :: 0 <= k < i + 1 ==> EntryFits(Uris, es[k])) && bytes == PutEntries(Uris, es[..i + 1])
  {
    hide Utf8.EncodeText, IsUtf8, PutEntries, U16;
    var uri := TruncateUtf8(Utf8.EncodeText(g.uris[i].text), U16_MAX);
    assert es[i] == Entry(i + 1, uri) && EntryFits(Uris, es[i]);
    assert es[..i + 1] == es[..i] + [es[i]];
    PutAppend(es[..i], es[i]);
    bytes := before + (U16(i + 1) + U16(|uri|) + uri);
  }

  lemma {:induction false} RunsAppend(rs: seq<Run>, r: Run)
    requires RunFits(r) && forall i :: 0 <= i < |rs| ==> RunFits(rs[i])
    ensures PutRuns(rs + [r]) == PutRuns(rs) + PutRun(r)
    decreases |rs|
  {
    hide PutRun, RunFits;
    if rs == [] {
      assert [r][1..] == [] && PutRuns([]) == [];
      assert PutRun(r) + [] == PutRun(r) && [] + PutRun(r) == PutRun(r);
    } else {
      assert (rs + [r])[1..] == rs[1..] + [r];
      RunsAppend(rs[1..], r);
    }
  }

  method FilterRuns(g: Native, linkIds: map<nat, nat>) returns (runs: seq<NativeRun>)
    requires IsLinkIds(g, linkIds, UriCount(g))
    ensures runs == Writable(g, |g.runs|)
  {
    hide RendererId, IsLinkIds;
    runs := [];
    var i := 0;
    while i < |g.runs|
      invariant 0 <= i <= |g.runs| && runs == Writable(g, i)
    {
      LinkIdsDecide(g, linkIds, g.runs[i].id);
      if g.runs[i].id in linkIds && g.runs[i].count <= U16_MAX {
        runs := runs + [g.runs[i]];
      }
      i := i + 1;
    }
  }

  method WriteRuns(g: Native, linkIds: map<nat, nat>) returns (bytes: seq<Byte>)
    requires NativeOk(g) && IsLinkIds(g, linkIds, UriCount(g))
    ensures (forall k :: 0 <= k < |Runs(g)| ==> RunFits(Runs(g)[k])) && bytes == U16(|Runs(g)|) + PutRuns(Runs(g))
  {
    hide RendererId, Writable, PutRuns, U16, NativeOk, IsLinkIds;
    RunsAlwaysFit(g);
    var all := FilterRuns(g, linkIds);
    var runs := all[..Min(|all|, U16_MAX)];
    ghost var rs := Runs(g);
    assert runs == Written(g);
    bytes := [];
    NoRunsWritten();
    assert rs[..0] == [];
    var i := 0;
    while i < |runs|
      invariant 0 <= i <= |runs|
      invariant (forall k :: 0 <= k < |rs[..i]| ==> RunFits(rs[..i][k])) && bytes == PutRuns(rs[..i])
    {
      assert RunKept(g, runs[i]);
      LinkIdsDecide(g, linkIds, runs[i].id);
      assert rs[i] == Run(runs[i].start, runs[i].count, linkIds[runs[i].id]) && RunFits(rs[i]);
      assert rs[..i + 1] == rs[..i] + [rs[i]];
      RunsAppend(rs[..i], rs[i]);
      bytes := bytes + (U32(runs[i].start) + U16(runs[i].count) + U16(linkIds[runs[i].id]));
      i := i + 1;
    }
    assert rs[..i] == rs;
    bytes := U16(|runs|) + bytes;
  }

  lemma NoRunsWritten()
    ensures PutRuns([]) == []
  {
  }

  /** `encodeBrowserTerminalGrid` before compression; more than 65535 overflow texts throw. */
  method EncodeBrowserTerminalGrid(g: Native) returns (payload: Option<seq<Byte>>)
    requires NativeOk(g)
    ensures payload == if |g.overflow| <= 65535 then Some(Payload(g)) else None
  {
    hide PutHead, Operations, Utf8.EncodeText, PlanesTo, RawStrings, UrisFit, RunFits, PutRuns, PutUris, U16, U32;
    hide Runs, UriEntries, Strings, RendererId, IsLinkIds;
    var title := TruncateUtf8(Utf8.EncodeText(g.title), TITLE_MAX);
    var planes := EncodePlanes(g.cells, g.rows * g.cols);
    if |g.overflow| > U16_MAX {
      return None;
    }
    var strings := WriteOverflow(g);
    var linkIds := LinkIds(g);
    var uris := WriteUris(g);
    var runs := WriteRuns(g, linkIds);
    var keyboard: seq<Byte> := if g.keyboardFlags != 0 then [g.keyboardFlags] else [];
    var tables := strings + (g.lineFlags + (U32(g.scrollback) + (uris + runs)));
    payload := Some(PutHead(NativeHead(g)) + (title + (Operations(g.rows, g.cols) + (planes + (tables + keyboard)))));
  }
}
