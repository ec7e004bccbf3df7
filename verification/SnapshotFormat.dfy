/**
  The renderer snapshot format: a complete terminal screen, cells transposed into byte planes,
  with string, URI and link-run tables.  Parsing is specified against printing in both
  directions, field by field.
*/
module SnapshotFormat {
  import opened Bytes
  import Utf8

  const TITLE_PRESENT: nat := 0x8000
  const OPS_PRESENT: nat := 0x4000
  const STRINGS_PRESENT: nat := 0x2000
  const LINE_FLAGS_PRESENT: nat := 0x1000
  const OP_FILL_RECT: Byte := 0x02
  const OP_PATCH_CELLS: Byte := 0x03

  /** A parser's answer: a value and the bytes after it. */
  datatype Parsed<+T> = Fail | Got(value: T, rest: seq<Byte>)

  /** `std::str::from_utf8` succeeds. */
  predicate IsUtf8(b: seq<Byte>) { Utf8.DecodeScalars(b).Text? }

  function Take(b: seq<Byte>, n: nat): Parsed<seq<Byte>> {
    if n <= |b| then Got(b[..n], b[n..]) else Fail
  }

  function GetU8(b: seq<Byte>): Parsed<Byte> { if b == [] then Fail else Got(b[0], b[1..]) }

  function GetU16(b: seq<Byte>): Parsed<nat> {
    if |b| < 2 then Fail else Got(FromU16(b[..2]), b[2..])
  }

  function GetU32(b: seq<Byte>): Parsed<nat> {
    if |b| < 4 then Fail else Got(FromU32(b[..4]), b[4..])
  }

  lemma TakeIsAppend(b: seq<Byte>, n: nat, v: seq<Byte>, rest: seq<Byte>)
    ensures Take(b, n) == Got(v, rest) <==> b == v + rest && |v| == n
  {
    if b == v + rest && |v| == n {
      assert b[..n] == v && b[n..] == rest;
    }
  }

  lemma GetU16IsU16(b: seq<Byte>, v: nat, rest: seq<Byte>)
    ensures GetU16(b) == Got(v, rest) <==> v < 0x1_0000 && b == U16(v) + rest
  {
    if |b| >= 2 {
      U16Inverse(b[..2]);
      assert b == b[..2] + b[2..];
    }
    if v < 0x1_0000 && b == U16(v) + rest {
      U16RoundTrip(v);
      assert b[..2] == U16(v) && b[2..] == rest;
    }
  }

  lemma GetU32IsU32(b: seq<Byte>, v: nat, rest: seq<Byte>)
    ensures GetU32(b) == Got(v, rest) <==> v < 0x1_0000_0000 && b == U32(v) + rest
  {
    hide U32, FromU32;
    if |b| >= 4 {
      U32Inverse(b[..4]);
      assert b == b[..4] + b[4..];
    }
    if v < 0x1_0000_0000 && b == U32(v) + rest {
      U32RoundTrip(v);
      assert b[..4] == U32(v) && b[4..] == rest;
    }
  }

  // ---------------------------------------------------------------------------------------
  // Keyed strings: the overflow table and the URI table
  // ---------------------------------------------------------------------------------------

  datatype Table = Overflow(total: nat) | Uris

  datatype Entry = Entry(key: nat, text: seq<Byte>)

  function GetKey(t: Table, b: seq<Byte>): Parsed<nat> { if t.Overflow? then GetU32(b) else GetU16(b) }

  function PutKey(t: Table, key: nat): seq<Byte>
    requires KeyFits(t, key)
  {
    if t.Overflow? then U32(key) else U16(key)
  }

  predicate KeyFits(t: Table, key: nat) { key < if t.Overflow? then 0x1_0000_0000 else 0x1_0000 }

  predicate KeyAllowed(t: Table, key: nat) {
    match t case Overflow(total) => key < total case Uris => key != 0
  }

  function GetEntry(t: Table, b: seq<Byte>): Parsed<Entry> {
    match GetKey(t, b)
    case Fail => Fail
    case Got(key, b1) =>
      match GetU16(b1)
      case Fail => Fail
      case Got(len, b2) =>
        match Take(b2, len)
        case Fail => Fail
        case Got(text, rest) => if IsUtf8(text) then Got(Entry(key, text), rest) else Fail
  }

  predicate EntryFits(t: Table, e: Entry) { KeyFits(t, e.key) && |e.text| < 0x1_0000 && IsUtf8(e.text) }

  function PutEntry(t: Table, e: Entry): seq<Byte>
    requires EntryFits(t, e)
  {
    PutKey(t, e.key) + U16(|e.text|) + e.text
  }

  lemma GetEntryIsPut(t: Table, b: seq<Byte>, e: Entry, rest: seq<Byte>)
    ensures GetEntry(t, b) == Got(e, rest) <==> EntryFits(t, e) && b == PutEntry(t, e) + rest
  {
    hide IsUtf8, U16, U32, GetU16, GetU32, Take;
    if GetEntry(t, b) == Got(e, rest) {
      var b1 := GetKey(t, b).rest;
      var b2 := GetU16(b1).rest;
      GetU32IsU32(b, e.key, b1);
      GetU16IsU16(b, e.key, b1);
      GetU16IsU16(b1, GetU16(b1).value, b2);
      TakeIsAppend(b2, GetU16(b1).value, e.text, rest);
      assert b == PutKey(t, e.key) + (U16(|e.text|) + (e.text + rest));
      assert b == PutEntry(t, e) + rest;
    }
    if EntryFits(t, e) && b == PutEntry(t, e) + rest {
      var b2 := e.text + rest;
      var b1 := U16(|e.text|) + b2;
      assert b == PutKey(t, e.key) + b1;
      GetU32IsU32(b, e.key, b1);
      GetU16IsU16(b, e.key, b1);
      GetU16IsU16(b1, |e.text|, b2);
      TakeIsAppend(b2, |e.text|, e.text, rest);
    }
  }

  predicate HasKey(entries: seq<Entry>, key: nat) {
    exists i :: 0 <= i < |entries| && entries[i].key == key
  }

  /** Reads `n` more entries after those already seen; a key out of range or repeated fails. */
  function GetEntries(t: Table, b: seq<Byte>, n: nat, seen: seq<Entry>): Parsed<seq<Entry>>
    decreases n
  {
    if n == 0 then Got(seen, b)
    else match GetEntry(t, b)
      case Fail => Fail
      case Got(e, rest) =>
        if KeyAllowed(t, e.key) && !HasKey(seen, e.key) then GetEntries(t, rest, n - 1, seen + [e]) else Fail
  }

  predicate ValidEntries(t: Table, es: seq<Entry>) {
    && (forall i :: 0 <= i < |es| ==> EntryFits(t, es[i]) && KeyAllowed(t, es[i].key))
    && (forall i, j :: 0 <= i < j < |es| ==> es[i].key != es[j].key)
  }

  function PutEntries(t: Table, es: seq<Entry>): seq<Byte>
    requires forall i :: 0 <= i < |es| ==> EntryFits(t, es[i])
  {
    if es == [] then [] else PutEntry(t, es[0]) + PutEntries(t, es[1..])
  }

  lemma {:induction false} GetPutEntries(t: Table, es: seq<Entry>, seen: seq<Entry>, rest: seq<Byte>)
    requires ValidEntries(t, seen + es) && forall i :: 0 <= i < |es| ==> EntryFits(t, es[i])
    ensures GetEntries(t, PutEntries(t, es) + rest, |es|, seen) == Got(seen + es, rest)
    decreases |es|
  {
    hide GetEntry, PutEntry, EntryFits;
    if es == [] {
      assert seen + es == seen && PutEntries(t, es) + rest == rest;
    } else {
      var e, more := es[0], PutEntries(t, es[1..]) + rest;
      assert (seen + es)[|seen|] == e;
      assert PutEntries(t, es) + rest == PutEntry(t, e) + more;
      GetEntryIsPut(t, PutEntries(t, es) + rest, e, more);
      assert forall i :: 0 <= i < |seen| ==> (seen + es)[i] == seen[i];
      assert seen + es == (seen + [e]) + es[1..];
      GetPutEntries(t, es[1..], seen + [e], rest);
    }
  }

  lemma {:induction false} PutGetEntries(t: Table, b: seq<Byte>, n: nat, seen: seq<Entry>) returns (es: seq<Entry>)
    requires GetEntries(t, b, n, seen).Got? && ValidEntries(t, seen)
    ensures |es| == n && (forall i :: 0 <= i < |es| ==> EntryFits(t, es[i]))
    ensures GetEntries(t, b, n, seen).value == seen + es && ValidEntries(t, seen + es)
    ensures b == PutEntries(t, es) + GetEntries(t, b, n, seen).rest
    decreases n
  {
    hide GetEntry, PutEntry, EntryFits;
    if n == 0 {
      es := [];
      assert seen + es == seen && PutEntries(t, es) + b == b;
    } else {
      var g := GetEntry(t, b);
      GetEntryIsPut(t, b, g.value, g.rest);
      var more := PutGetEntries(t, g.rest, n - 1, seen + [g.value]);
      es := [g.value] + more;
      assert es[1..] == more && seen + es == (seen + [g.value]) + more;
      var end := GetEntries(t, b, n, seen).rest;
      assert PutEntry(t, g.value) + (PutEntries(t, more) + end) == PutEntries(t, es) + end;
    }
  }

  /** The table the entries make. */
  function EntryMap(es: seq<Entry>): map<nat, seq<Byte>> {
    if es == [] then map[] else EntryMap(es[..|es| - 1])[es[|es| - 1].key := es[|es| - 1].text]
  }

  lemma {:induction false} EntryMapKeys(es: seq<Entry>)
    ensures forall k :: k in EntryMap(es) <==> HasKey(es, k)
    decreases |es|
  {
    if es != [] {
      var init, last := es[..|es| - 1], es[|es| - 1];
      EntryMapKeys(init);
      forall k ensures k in EntryMap(es) <==> HasKey(es, k) {
        if HasKey(init, k) {
          var i :| 0 <= i < |init| && init[i].key == k;
          assert es[i].key == k;
        }
        if HasKey(es, k) && k != last.key {
          var i :| 0 <= i < |es| && es[i].key == k;
          assert init[i].key == k;
        }
      }
    }
  }

  // ---------------------------------------------------------------------------------------
  // Link runs
  // ---------------------------------------------------------------------------------------

  datatype Run = Run(start: nat, len: nat, id: nat)

  function GetRun(b: seq<Byte>): Parsed<Run> {
    match GetU32(b)
    case Fail => Fail
    case Got(start, b1) =>
      match GetU16(b1)
      case Fail => Fail
      case Got(len, b2) =>
        match GetU16(b2)
        case Fail => Fail
        case Got(id, rest) => Got(Run(start, len, id), rest)
  }

  predicate RunFits(r: Run) { r.start < 0x1_0000_0000 && r.len < 0x1_0000 && r.id < 0x1_0000 }

  function PutRun(r: Run): seq<Byte>
    requires RunFits(r)
  {
    U32(r.start) + U16(r.len) + U16(r.id)
  }

  lemma GetRunIsPut(b: seq<Byte>, r: Run, rest: seq<Byte>)
    ensures GetRun(b) == Got(r, rest) <==> RunFits(r) && b == PutRun(r) + rest
  {
    hide U16, U32, GetU16, GetU32;
    if GetRun(b) == Got(r, rest) {
      var b1 := GetU32(b).rest;
      var b2 := GetU16(b1).rest;
      GetU32IsU32(b, r.start, b1);
      GetU16IsU16(b1, r.len, b2);
      GetU16IsU16(b2, r.id, rest);
      assert b == U32(r.start) + (U16(r.len) + (U16(r.id) + rest));
      assert b == PutRun(r) + rest;
    }
    if RunFits(r) && b == PutRun(r) + rest {
      var b2 := U16(r.id) + rest;
      var b1 := U16(r.len) + b2;
      assert b == U32(r.start) + b1;
      GetU32IsU32(b, r.start, b1);
      GetU16IsU16(b1, r.len, b2);
      GetU16IsU16(b2, r.id, rest);
    }
  }

  predicate RunAllowed(total: nat, uris: map<nat, seq<Byte>>, r: Run) {
    r.start < total && r.start + r.len <= total && r.id != 0 && r.id in uris
  }

  function GetRuns(total: nat, uris: map<nat, seq<Byte>>, b: seq<Byte>, n: nat): Parsed<seq<Run>>
    decreases n
  {
    if n == 0 then Got([], b)
    else match GetRun(b)
      case Fail => Fail
      case Got(r, more) =>
        if !RunAllowed(total, uris, r) then Fail
        else match GetRuns(total, uris, more, n - 1)
          case Fail => Fail
          case Got(rs, rest) => Got([r] + rs, rest)
  }

  function PutRuns(rs: seq<Run>): seq<Byte>
    requires forall i :: 0 <= i < |rs| ==> RunFits(rs[i])
  {
    if rs == [] then [] else PutRun(rs[0]) + PutRuns(rs[1..])
  }

  predicate ValidRuns(total: nat, uris: map<nat, seq<Byte>>, rs: seq<Run>) {
    forall i :: 0 <= i < |rs| ==> RunFits(rs[i]) && RunAllowed(total, uris, rs[i])
  }

  lemma PutRunFirst(rs: seq<Run>, rest: seq<Byte>)
    requires rs != [] && forall i :: 0 <= i < |rs| ==> RunFits(rs[i])
    ensures PutRuns(rs) + rest == PutRun(rs[0]) + (PutRuns(rs[1..]) + rest)
  {
    hide PutRun, RunFits;
  }

  lemma NoRunsPut(rs: seq<Run>, rest: seq<Byte>)
    ensures rs == [] ==> PutRuns(rs) + rest == rest
  {
  }

  lemma {:induction false} GetRunsIsPut(
      total: nat, uris: map<nat, seq<Byte>>, b: seq<Byte>, n: nat, rs: seq<Run>, rest: seq<Byte>)
    ensures GetRuns(total, uris, b, n) == Got(rs, rest)
       <==> |rs| == n && ValidRuns(total, uris, rs) && b == PutRuns(rs) + rest
    decreases n
  {
    hide GetRun, PutRun, RunFits;
    if n == 0 {
      NoRunsPut(rs, rest);
    } else {
      var g := GetRun(b);
      if GetRuns(total, uris, b, n) == Got(rs, rest) {
        GetRunIsPut(b, g.value, g.rest);
        var tail := GetRuns(total, uris, g.rest, n - 1).value;
        GetRunsIsPut(total, uris, g.rest, n - 1, tail, rest);
        assert rs == [g.value] + tail && rs[1..] == tail;
        PutRunFirst(rs, rest);
      }
      if |rs| == n && ValidRuns(total, uris, rs) && b == PutRuns(rs) + rest {
        var more := PutRuns(rs[1..]) + rest;
        PutRunFirst(rs, rest);
        GetRunIsPut(b, rs[0], more);
        GetRunsIsPut(total, uris, more, n - 1, rs[1..], rest);
        assert [rs[0]] + rs[1..] == rs;
      }
    }
  }

  /** `cell_links[start..end].fill(id)`. */
  function FillRun(links: seq<nat>, r: Run): (filled: seq<nat>)
    requires r.start + r.len <= |links|
    ensures |filled| == |links|
    ensures forall i :: 0 <= i < |links| ==> filled[i] == if r.start <= i < r.start + r.len then r.id else links[i]
  {
    links[..r.start] + seq(r.len, _ => r.id) + links[r.start + r.len..]
  }

  /** Fills run after run; later runs overwrite earlier ones. */
  function Fill(links: seq<nat>, rs: seq<Run>): (r: seq<nat>)
    requires forall i :: 0 <= i < |rs| ==> rs[i].start + rs[i].len <= |links|
    ensures |r| == |links|
    decreases |rs|
  {
    if rs == [] then links else Fill(FillRun(links, rs[0]), rs[1..])
  }
}
