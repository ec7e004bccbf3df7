/** The driver's table of hyperlinks on a frame: each URI gets one id, each cell at most one id. */
module LinkCollector {
  import opened Bytes

  const MAX_LINK_ID: nat := 0xFFFE
  const MAX_LINK_URI: nat := 4096

  type Uri = seq<Byte>

  datatype Links = Links(cellLinks: seq<nat>, uris: map<nat, Uri>, byUri: map<Uri, nat>, lastId: nat)

  const NO_LINKS: Links := Links([], map[], map[], 0)

  predicate Acceptable(uri: Uri) { uri != [] && |uri| <= MAX_LINK_URI }

  /** `uris` and `byUri` are inverse to each other, over the ids 1 to `lastId`. */
  ghost predicate Bijection(t: Links) {
    && (forall id :: id in t.uris <==> 1 <= id <= t.lastId)
    && (forall id :: id in t.uris ==> t.uris[id] in t.byUri && t.byUri[t.uris[id]] == id)
    && (forall uri :: uri in t.byUri ==> t.byUri[uri] in t.uris && t.uris[t.byUri[uri]] == uri)
  }

  ghost predicate Valid(t: Links, total: nat): (valid: bool)
    ensures valid ==> t.cellLinks == [] || |t.cellLinks| == total
  {
    && Bijection(t) && t.lastId <= MAX_LINK_ID
    && (forall uri :: uri in t.byUri ==> Acceptable(uri))
    && (t.cellLinks == [] || |t.cellLinks| == total)
    && (forall i :: 0 <= i < |t.cellLinks| && t.cellLinks[i] != 0 ==> t.cellLinks[i] in t.uris)
  }

  function LinkAt(t: Links, i: nat): nat { if i < |t.cellLinks| then t.cellLinks[i] else 0 }

  predicate ResolvesTo(t: Links, i: nat, uri: Uri) {
    LinkAt(t, i) != 0 && LinkAt(t, i) in t.uris && t.uris[LinkAt(t, i)] == uri
  }

  function Interned(t: Links, uri: Uri): Links {
    if uri in t.byUri || t.lastId >= MAX_LINK_ID then t
    else t.(lastId := t.lastId + 1, byUri := t.byUri[uri := t.lastId + 1], uris := t.uris[t.lastId + 1 := uri])
  }

  /** The table after a call. */
  function Recorded(t: Links, flat: nat, total: nat, uri: Uri): Links {
    var t1 := Interned(t, uri);
    if !Acceptable(uri) then t
    else if uri !in t1.byUri then t1
    else
      var cells := if t1.cellLinks == [] then seq(total, _ => 0) else t1.cellLinks;
      t1.(cellLinks := if flat < |cells| then cells[flat := t1.byUri[uri]] else cells)
  }

  /** What a call may change: new URIs are added until the table is full, and one cell is set. */
  predicate Extends(t: Links, t': Links) {
    && t.lastId <= t'.lastId
    && (forall id :: id in t.uris ==> id in t'.uris && t'.uris[id] == t.uris[id])
    && (forall uri :: uri in t.byUri ==> uri in t'.byUri)
    && (t.lastId >= MAX_LINK_ID ==> t'.lastId == t.lastId && t'.byUri == t.byUri)
  }

  lemma InternedKeeps(t: Links, total: nat, uri: Uri)
    requires Valid(t, total) && Acceptable(uri)
    ensures var t' := Interned(t, uri);
      && Valid(t', total) && Extends(t, t') && t'.cellLinks == t.cellLinks
      && (uri !in t'.byUri ==> t'.lastId == MAX_LINK_ID)
  {
  }

  /** A URI is refused exactly when it is empty, too long, or new to a full table. */
  lemma RecordedKeeps(t: Links, flat: nat, total: nat, uri: Uri)
    requires Valid(t, total)
    ensures var t' := Recorded(t, flat, total, uri);
      && Valid(t', total) && Extends(t, t')
      && (forall i: nat :: i != flat ==> LinkAt(t', i) == LinkAt(t, i))
      && (ResolvesTo(t', flat, uri)
          <==> flat < total && 1 <= |uri| <= 4096 && (uri in t.byUri || t.lastId < 65534))
      && (!ResolvesTo(t', flat, uri) ==> LinkAt(t', flat) == LinkAt(t, flat))
  {
    if Acceptable(uri) {
      InternedKeeps(t, total, uri);
      hide Extends;
      var t1 := Interned(t, uri);
      var t' := Recorded(t, flat, total, uri);
      SameTableExtends(t, t1, t');
    }
  }

  lemma SameTableExtends(t: Links, t1: Links, t': Links)
    requires Extends(t, t1) && t'.uris == t1.uris && t'.byUri == t1.byUri && t'.lastId == t1.lastId
    ensures Extends(t, t')
  {
  }

  class Collector {
    var cellLinks: seq<nat>
    var uris: map<nat, Uri>
    var byUri: map<Uri, nat>
    var lastId: nat

    constructor ()
      ensures Table() == NO_LINKS
    {
      cellLinks, uris, byUri, lastId := [], map[], map[], 0;
    }

    function Table(): Links
      reads this
    {
      Links(cellLinks, uris, byUri, lastId)
    }

    /** True exactly when the cell now resolves to the URI. */
    method Record(flat: nat, total: nat, uri: Uri) returns (linked: bool)
      requires Valid(Table(), total)
      modifies this
      ensures Table() == Recorded(old(Table()), flat, total, uri) && Valid(Table(), total)
      ensures linked <==> ResolvesTo(Table(), flat, uri)
      ensures linked <==>
        flat < total && 1 <= |uri| <= 4096 && (uri in old(byUri) || old(lastId) < 65534)
    {
      hide Valid, ResolvesTo, Extends;
      RecordedKeeps(Table(), flat, total, uri);
      if |uri| == 0 || |uri| > MAX_LINK_URI {
        return false;
      }
      var id;
      if uri in byUri {
        id := byUri[uri];
      } else {
        if lastId >= MAX_LINK_ID {
          return false;
        }
        lastId := lastId + 1;
        byUri := byUri[uri := lastId];
        uris := uris[lastId := uri];
        id := lastId;
      }
      if |cellLinks| == 0 {
        cellLinks := seq(total, _ => 0);
      }
      if flat < |cellLinks| {
        cellLinks := cellLinks[flat := id];
      } else {
        return false;
      }
      linked := true;
    }
  }

  // ---------------------------------------------------------------------------------------
  // Any sequence of calls
  // ---------------------------------------------------------------------------------------

  datatype Call = Call(flat: nat, uri: Uri)

  function Run(calls: seq<Call>, total: nat): Links {
    if calls == [] then NO_LINKS
    else var last := calls[|calls| - 1]; Recorded(Run(calls[..|calls| - 1], total), last.flat, total, last.uri)
  }

  /** The URIs seen so far that deserve an id. */
  function Seen(calls: seq<Call>): set<Uri> {
    set i | 0 <= i < |calls| && Acceptable(calls[i].uri) :: calls[i].uri
  }

  lemma {:induction false} RunIsValid(calls: seq<Call>, total: nat)
    ensures Valid(Run(calls, total), total)
    decreases |calls|
  {
    if calls != [] {
      var init, last := calls[..|calls| - 1], calls[|calls| - 1];
      RunIsValid(init, total);
      RecordedKeeps(Run(init, total), last.flat, total, last.uri);
      hide Recorded, Valid, Extends;
    }
  }

  /**
    The table holds exactly the acceptable URIs seen, as long as they are no more than there are
    ids; and never one that was not seen.
   */
  lemma {:induction false} TableIsSeen(calls: seq<Call>, total: nat)
    ensures Run(calls, total).byUri.Keys <= Seen(calls)
    ensures |Seen(calls)| <= MAX_LINK_ID ==> Run(calls, total).byUri.Keys == Seen(calls)
    ensures |Run(calls, total).byUri| == Run(calls, total).lastId
    decreases |calls|
  {
    if calls != [] {
      var init, last := calls[..|calls| - 1], calls[|calls| - 1];
      TableIsSeen(init, total);
      SeenStep(calls);
      TableStep(Run(init, total), last.flat, total, last.uri);
      hide Recorded, Seen;
      var before := Run(init, total).byUri;
      assert |before| == |before.Keys|;
      if last.uri !in before && Acceptable(last.uri) && |Seen(calls)| <= MAX_LINK_ID {
        SubsetCount(Seen(init), Seen(calls));
        assert before.Keys == Seen(init);
        assert |Seen(calls)| == |Seen(init)| + 1;
      } else if Acceptable(last.uri) {
        SubsetCount(Seen(init), Seen(calls));
      }
    }
  }

  lemma SubsetCount<T>(a: set<T>, b: set<T>)
    requires a <= b
    ensures |a| <= |b|
  {
    assert b == a + (b - a);
  }

  lemma SeenStep(calls: seq<Call>)
    requires calls != []
    ensures var init, last := calls[..|calls| - 1], calls[|calls| - 1];
      Seen(calls) == if Acceptable(last.uri) then Seen(init) + {last.uri} else Seen(init)
  {
    var init, last := calls[..|calls| - 1], calls[|calls| - 1];
    forall uri | uri in Seen(calls) ensures uri in Seen(init) || (Acceptable(last.uri) && uri == last.uri) {
      var i :| 0 <= i < |calls| && Acceptable(calls[i].uri) && calls[i].uri == uri;
      if i < |init| {
        assert init[i] == calls[i];
      }
    }
    forall uri | uri in Seen(init) ensures uri in Seen(calls) {
      var i :| 0 <= i < |init| && Acceptable(init[i].uri) && init[i].uri == uri;
      assert init[i] == calls[i];
    }
    if Acceptable(last.uri) {
      assert last.uri in Seen(calls);
    }
  }

  lemma TableStep(t: Links, flat: nat, total: nat, uri: Uri)
    requires |t.byUri| == t.lastId
    ensures var t' := Recorded(t, flat, total, uri);
      && t'.byUri.Keys == (if Acceptable(uri) && t.lastId < MAX_LINK_ID then t.byUri.Keys + {uri} else t.byUri.Keys)
      && |t'.byUri| == t'.lastId
  {
    if uri !in t.byUri {
      var m := t.byUri[uri := t.lastId + 1];
      assert m.Keys == t.byUri.Keys + {uri};
      assert |m| == |m.Keys| && |t.byUri| == |t.byUri.Keys|;
    } else {
      assert t.byUri.Keys + {uri} == t.byUri.Keys;
    }
  }

  /** A URI seen and not in the table was refused by a full one. */
  lemma {:induction false} SeenOrFull(calls: seq<Call>, total: nat, k: nat)
    requires k < |calls| && Acceptable(calls[k].uri)
    ensures calls[k].uri in Run(calls, total).byUri || Run(calls, total).lastId == MAX_LINK_ID
    decreases |calls|
  {
    var init, last := calls[..|calls| - 1], calls[|calls| - 1];
    RunIsValid(init, total);
    RunIsValid(calls, total);
    RecordedKeeps(Run(init, total), last.flat, total, last.uri);
    if k < |init| {
      hide Recorded, Valid;
      SeenOrFull(init, total, k);
      FullStays(Run(init, total), Run(calls, total), total);
    }
  }

  lemma FullStays(t: Links, t': Links, total: nat)
    requires Extends(t, t') && Valid(t, total) && Valid(t', total)
    ensures t.lastId == MAX_LINK_ID ==> t'.lastId == MAX_LINK_ID && t'.byUri == t.byUri
  {
  }

  /** No later call changes whether an earlier one counts as accepted. */
  lemma AcceptanceIsStable(calls: seq<Call>, total: nat, k: nat)
    requires k < |calls| - 1
    ensures calls[k].uri in Run(calls[..|calls| - 1], total).byUri <==> calls[k].uri in Run(calls, total).byUri
  {
    var init, last := calls[..|calls| - 1], calls[|calls| - 1];
    RunIsValid(init, total);
    RunIsValid(calls, total);
    RecordedKeeps(Run(init, total), last.flat, total, last.uri);
    FullStays(Run(init, total), Run(calls, total), total);
    if Acceptable(calls[k].uri) {
      SeenOrFull(init, total, k);
    }
    hide Recorded, Run;
  }

  /** What a cell should show: the URI of the last accepted call on it. */
  function Shown(calls: seq<Call>, accepted: set<Uri>, flat: nat): Shows {
    if calls == [] then Nothing
    else
      var last := calls[|calls| - 1];
      if last.flat == flat && last.uri in accepted then Link(last.uri) else Shown(calls[..|calls| - 1], accepted, flat)
  }

  datatype Shows = Nothing | Link(uri: Uri)

  lemma {:induction false} ShownAgrees(calls: seq<Call>, a: set<Uri>, b: set<Uri>, flat: nat)
    requires forall k :: 0 <= k < |calls| ==> (calls[k].uri in a <==> calls[k].uri in b)
    ensures Shown(calls, a, flat) == Shown(calls, b, flat)
    decreases |calls|
  {
    if calls != [] {
      ShownAgrees(calls[..|calls| - 1], a, b, flat);
    }
  }

  predicate CellShows(t: Links, flat: nat, shows: Shows) {
    match shows case Nothing => LinkAt(t, flat) == 0 case Link(uri) => ResolvesTo(t, flat, uri)
  }

  /** After any calls each cell shows the last URI recorded on it that the table has room for. */
  lemma {:induction false} CellShowsLastAccepted(calls: seq<Call>, total: nat, flat: nat)
    requires flat < total
    ensures CellShows(Run(calls, total), flat, Shown(calls, Run(calls, total).byUri.Keys, flat))
    decreases |calls|
  {
    if calls != [] {
      var init, last := calls[..|calls| - 1], calls[|calls| - 1];
      var t, t' := Run(init, total), Run(calls, total);
      CellShowsLastAccepted(init, total, flat);
      forall k | 0 <= k < |init| ensures init[k].uri in t.byUri.Keys <==> init[k].uri in t'.byUri.Keys {
        AcceptanceIsStable(calls, total, k);
      }
      ShownAgrees(init, t.byUri.Keys, t'.byUri.Keys, flat);
      RunIsValid(init, total);
      RunIsValid(calls, total);
      hide Run;
      LastCall(t, t', last, total);
    }
  }

  lemma LastCall(t: Links, t': Links, last: Call, total: nat)
    requires Valid(t, total) && t' == Recorded(t, last.flat, total, last.uri) && Valid(t', total)
    ensures Extends(t, t') && forall i: nat :: i != last.flat ==> LinkAt(t', i) == LinkAt(t, i)
    ensures last.flat < total && last.uri in t'.byUri ==> ResolvesTo(t', last.flat, last.uri)
    ensures last.uri !in t'.byUri ==> LinkAt(t', last.flat) == LinkAt(t, last.flat)
  {
    RecordedKeeps(t, last.flat, total, last.uri);
  }
}
