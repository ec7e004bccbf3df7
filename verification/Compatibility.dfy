/**
  Wire compatibility of schemas: `check(baseline, current)` accepts a current schema that keeps
  every contract the baseline recorded.  Schemas are JSON values; numbers are identified with
  their printed form.
*/
module Compatibility {
  import opened Common

  datatype Value =
    | Null
    | Bool(b: bool)
    | Number(text: string)
    | Str(text: string)
    | Array(items: seq<Value>)
    | Object(fields: map<string, Value>)

  datatype Problem =
    | Changed(path: string, field: string)
    | Missing(path: string, field: string)
    | BadKey(path: string)
    | Duplicate(path: string, key: string)
    | Removed(path: string, key: string)

  /** A list of entries inside a value: where it is, what identifies an entry, what may not change. */
  datatype Section = Section(field: string, keys: seq<string>, fields: seq<string>)

  const TRANSPORT_FIELDS: seq<string> := [
    "schema", "preface_hex", "protocol_major", "websocket_subprotocol", "stream_length_bits",
    "event_header_bytes", "correlated_header_bytes", "header", "class", "meta", "datagram_predicate", "limits"]

  const TRANSPORT_CODECS := Section("codec", ["id"], ["name", "id"])
  const STATE_CONSTANTS := Section("constant", ["name"], ["name", "value"])
  const STATE_TYPES := Section("type", ["name"], ["name", "layout"])
  const STATUSES := Section("statuses", ["code"], ["name", "code"])
  const CODECS := Section("codecs", ["family", "id"], [
    "schema", "name", "const_name", "family", "id", "version", "direction", "layout", "golden_hex", "constants"])

  const FAMILY_FIELDS: seq<string> := ["name", "const_name", "id", "version", "dependencies"]

  const OPERATION_FIELDS: seq<string> := ["name", "kind", "direction", "sensitive", "compression", "datagram", "layout"]

  const FAMILY_SECTIONS: seq<Section> := [
    Section("requests", ["kind"], OPERATION_FIELDS),
    Section("events", ["kind"], OPERATION_FIELDS),
    Section("limits", ["tag"], ["name", "tag", "type", "required", "hard_min", "hard_max"]),
    Section("types", ["name"], ["name", "layout"]),
    Section("constants", ["name"], ["name", "value"])]

  // ---------------------------------------------------------------------------------------
  // Reading values
  // ---------------------------------------------------------------------------------------

  function Get(v: Value, field: string): Option<Value> {
    if v.Object? && field in v.fields then Some(v.fields[field]) else None
  }

  function ObjectField(v: Value, field: string): Option<Value> {
    var got := Get(v, field);
    if got.Some? && got.value.Object? then got else None
  }

  function ArrayField(v: Value, field: string): Option<seq<Value>> {
    var got := Get(v, field);
    if got.Some? && got.value.Array? then Some(got.value.items) else None
  }

  function Scalar(v: Option<Value>): Option<string> {
    match v case Some(Str(text)) => Some(text) case Some(Number(text)) => Some(text) case _ => None
  }

  /** The key of an entry: its key fields, which must be scalars, joined by slashes. */
  function EntryKey(entry: Value, keys: seq<string>): Option<string> {
    if keys == [] then Some("")
    else
      var first := Scalar(Get(entry, keys[0]));
      if first.None? then None
      else if |keys| == 1 then first
      else
        var rest := EntryKey(entry, keys[1..]);
        if rest.None? then None else Some(first.value + "/" + rest.value)
  }

  // ---------------------------------------------------------------------------------------
  // What is checked, as relations
  // ---------------------------------------------------------------------------------------

  predicate SameFields(old_: Value, new_: Value, fields: seq<string>) {
    forall i :: 0 <= i < |fields| ==> Get(old_, fields[i]) == Get(new_, fields[i])
  }

  /** Every entry has a key and no two have the same. */
  predicate Keyed(entries: seq<Value>, keys: seq<string>) {
    && (forall i :: 0 <= i < |entries| ==> EntryKey(entries[i], keys).Some?)
    && (forall i, j :: 0 <= i < j < |entries| ==> EntryKey(entries[i], keys) != EntryKey(entries[j], keys))
  }

  predicate SameKey(a: Value, b: Value, keys: seq<string>) {
    EntryKey(a, keys).Some? && EntryKey(a, keys) == EntryKey(b, keys)
  }

  /** The entry is still there under its key, with its fixed fields unchanged. */
  predicate Kept(entry: Value, entries: seq<Value>, s: Section) {
    exists j :: 0 <= j < |entries| && SameKey(entry, entries[j], s.keys) && SameFields(entry, entries[j], s.fields)
  }

  predicate SectionKept(old_: Value, new_: Value, s: Section) {
    var before, after := ArrayField(old_, s.field), ArrayField(new_, s.field);
    before.Some? && after.Some? && Keyed(after.value, s.keys)
    && forall i :: 0 <= i < |before.value| ==> Kept(before.value[i], after.value, s)
  }

  predicate SectionsKept(old_: Value, new_: Value, sections: seq<Section>) {
    forall i :: 0 <= i < |sections| ==> SectionKept(old_, new_, sections[i])
  }

  predicate FamilyKept(old_: Value, new_: Value) {
    SameFields(old_, new_, FAMILY_FIELDS) && SectionsKept(old_, new_, FAMILY_SECTIONS)
  }

  predicate FamilyFound(family: Value, families: seq<Value>) {
    exists j :: 0 <= j < |families| && SameKey(family, families[j], ["id"]) && FamilyKept(family, families[j])
  }

  predicate FamiliesKept(old_: Value, new_: Value) {
    var before, after := ArrayField(old_, "families"), ArrayField(new_, "families");
    before.Some? && after.Some? && Keyed(after.value, ["id"])
    && forall i :: 0 <= i < |before.value| ==> FamilyFound(before.value[i], after.value)
  }

  predicate ObjectKept(old_: Value, new_: Value, field: string, fields: seq<string>, sections: seq<Section>) {
    var before, after := ObjectField(old_, field), ObjectField(new_, field);
    before.Some? && after.Some? && SameFields(before.value, after.value, fields)
    && SectionsKept(before.value, after.value, sections)
  }

  predicate Compatible(old_: Value, new_: Value) {
    && SameFields(old_, new_, ["schema"])
    && ObjectKept(old_, new_, "transport", TRANSPORT_FIELDS, [TRANSPORT_CODECS])
    && ObjectKept(old_, new_, "state", ["schema"], [STATE_CONSTANTS, STATE_TYPES])
    && SectionKept(old_, new_, STATUSES)
    && SectionKept(old_, new_, CODECS)
    && FamiliesKept(old_, new_)
  }

  // ---------------------------------------------------------------------------------------
  // The checker
  // ---------------------------------------------------------------------------------------

  /** The errors vector every comparison pushes onto. */
  class Report {
    var problems: seq<Problem>

    constructor ()
      ensures problems == []
    {
      problems := [];
    }

    method Push(p: Problem)
      modifies this
      ensures problems == old(problems) + [p]
    {
      problems := problems + [p];
    }
  }

  method CompareFields(old_: Value, new_: Value, path: string, fields: seq<string>, report: Report)
    modifies report
    ensures |report.problems| >= |old(report.problems)|
    ensures |report.problems| == |old(report.problems)| <==> SameFields(old_, new_, fields)
  {
    hide Get;
    ghost var start := |report.problems|;
    var i := 0;
    while i < |fields|
      invariant 0 <= i <= |fields| && |report.problems| >= start
      invariant |report.problems| == start <==> forall k :: 0 <= k < i ==> Get(old_, fields[k]) == Get(new_, fields[k])
    {
      if Get(old_, fields[i]) != Get(new_, fields[i]) {
        report.Push(Changed(path, fields[i]));
      }
      i := i + 1;
    }
  }

  /** What `index` builds: the entries by key. */
  ghost predicate Indexes(m: map<string, Value>, entries: seq<Value>, keys: seq<string>) {
    && (forall i :: 0 <= i < |entries| ==>
          && EntryKey(entries[i], keys).Some? && EntryKey(entries[i], keys).value in m
          && m[EntryKey(entries[i], keys).value] == entries[i])
    && (forall k :: k in m ==> exists i :: 0 <= i < |entries| && EntryKey(entries[i], keys) == Some(k))
  }

  method Index(
      entries: seq<Value>, keys: seq<string>, path: string)
      returns (indexed: map<string, Value>, problem: Option<Problem>)
    ensures problem.None? <==> Keyed(entries, keys)
    ensures problem.None? ==> Indexes(indexed, entries, keys)
  {
    hide EntryKey;
    indexed := map[];
    problem := None;
    var i := 0;
    while i < |entries|
      invariant 0 <= i <= |entries| && Keyed(entries[..i], keys) && Indexes(indexed, entries[..i], keys)
    {
      var key := EntryKey(entries[i], keys);
      if key.None? {
        problem := Some(BadKey(path));
        return;
      }
      assert entries[..i + 1] == entries[..i] + [entries[i]];
      if key.value in indexed {
        var k :| 0 <= k < i && EntryKey(entries[..i][k], keys) == key;
        assert EntryKey(entries[k], keys) == EntryKey(entries[i], keys);
        problem := Some(Duplicate(path, key.value));
        return;
      }
      IndexMore(indexed, entries[..i], keys, entries[i]);
      indexed := indexed[key.value := entries[i]];
      i := i + 1;
    }
    assert entries[..i] == entries;
  }

  lemma IndexMore(m: map<string, Value>, entries: seq<Value>, keys: seq<string>, entry: Value)
    requires Indexes(m, entries, keys) && Keyed(entries, keys)
    requires EntryKey(entry, keys).Some? && EntryKey(entry, keys).value !in m
    ensures Indexes(m[EntryKey(entry, keys).value := entry], entries + [entry], keys) && Keyed(entries + [entry], keys)
  {
    hide EntryKey;
    var more, k := entries + [entry], EntryKey(entry, keys).value;
    forall x | x in m[k := entry] ensures exists i :: 0 <= i < |more| && EntryKey(more[i], keys) == Some(x) {
      if x == k {
        assert EntryKey(more[|entries|], keys) == Some(x);
      } else {
        var i :| 0 <= i < |entries| && EntryKey(entries[i], keys) == Some(x);
        assert more[i] == entries[i];
      }
    }
  }

  /** Looking an entry up by key and comparing its fields decides whether it was kept. */
  lemma LookupDecidesKept(m: map<string, Value>, entries: seq<Value>, s: Section, entry: Value)
    requires Indexes(m, entries, s.keys) && Keyed(entries, s.keys)
    ensures Kept(entry, entries, s) <==>
      && EntryKey(entry, s.keys).Some? && EntryKey(entry, s.keys).value in m
      && SameFields(entry, m[EntryKey(entry, s.keys).value], s.fields)
  {
    hide EntryKey;
    var key := EntryKey(entry, s.keys);
    if key.Some? && key.value in m {
      var i :| 0 <= i < |entries| && EntryKey(entries[i], s.keys) == Some(key.value);
      assert m[key.value] == entries[i];
    }
  }

  predicate KeptUpTo(before: seq<Value>, after: seq<Value>, s: Section, n: nat) {
    forall k :: 0 <= k < n && k < |before| ==> Kept(before[k], after, s)
  }

  method CompareArrayEntries(old_: Value, new_: Value, s: Section, path: string, report: Report)
    modifies report
    ensures |report.problems| >= |old(report.problems)|
    ensures |report.problems| == |old(report.problems)| <==> SectionKept(old_, new_, s)
  {
    hide EntryKey, Keyed, Kept, Indexes, ArrayField;
    var before := ArrayField(old_, s.field);
    if before.None? {
      report.Push(Missing(path, s.field));
      return;
    }
    var after := ArrayField(new_, s.field);
    if after.None? {
      report.Push(Missing(path, s.field));
      return;
    }
    var newByKey, problem := Index(after.value, s.keys, path);
    if problem.Some? {
      report.Push(problem.value);
      return;
    }
    CompareEntries(before.value, after.value, newByKey, s, path, report);
  }

  /** The loop over the old entries. */
  method CompareEntries(
      before: seq<Value>, after: seq<Value>, newByKey: map<string, Value>, s: Section, path: string,
      report: Report)
    requires Indexes(newByKey, after, s.keys) && Keyed(after, s.keys)
    modifies report
    ensures |report.problems| >= |old(report.problems)|
    ensures |report.problems| == |old(report.problems)| <==> KeptUpTo(before, after, s, |before|)
  {
    hide EntryKey, Kept, Indexes, Keyed, SameFields;
    ghost var start := |report.problems|;
    var i := 0;
    while i < |before|
      invariant 0 <= i <= |before| && |report.problems| >= start
      invariant |report.problems| == start <==> KeptUpTo(before, after, s, i)
    {
      var entry := before[i];
      LookupDecidesKept(newByKey, after, s, entry);
      var key := EntryKey(entry, s.keys);
      if key.None? {
        report.Push(BadKey(path));
      } else if key.value !in newByKey {
        report.Push(Removed(path, key.value));
      } else {
        CompareFields(entry, newByKey[key.value], path + "[" + key.value + "]", s.fields, report);
      }
      i := i + 1;
    }
  }

  method CompareSections(old_: Value, new_: Value, sections: seq<Section>, path: string, report: Report)
    modifies report
    ensures |report.problems| >= |old(report.problems)|
    ensures |report.problems| == |old(report.problems)| <==> SectionsKept(old_, new_, sections)
  {
    hide SectionKept;
    var i := 0;
    while i < |sections|
      invariant 0 <= i <= |sections| && |report.problems| >= |old(report.problems)|
      invariant |report.problems| == |old(report.problems)| <==>
        forall k :: 0 <= k < i ==> SectionKept(old_, new_, sections[k])
    {
      CompareArrayEntries(old_, new_, sections[i], path + "." + sections[i].field, report);
      i := i + 1;
    }
  }

  lemma LookupDecidesFamily(m: map<string, Value>, families: seq<Value>, family: Value)
    requires Indexes(m, families, ["id"]) && Keyed(families, ["id"])
    ensures FamilyFound(family, families) <==>
      && EntryKey(family, ["id"]).Some? && EntryKey(family, ["id"]).value in m
      && FamilyKept(family, m[EntryKey(family, ["id"]).value])
  {
    hide EntryKey, FamilyKept;
    var key := EntryKey(family, ["id"]);
    if key.Some? && key.value in m {
      var i :| 0 <= i < |families| && EntryKey(families[i], ["id"]) == Some(key.value);
      assert m[key.value] == families[i];
    }
  }

  predicate FoundUpTo(before: seq<Value>, after: seq<Value>, n: nat) {
    forall k :: 0 <= k < n && k < |before| ==> FamilyFound(before[k], after)
  }

  method CompareFamilies(old_: Value, new_: Value, report: Report)
    modifies report
    ensures |report.problems| >= |old(report.problems)|
    ensures |report.problems| == |old(report.problems)| <==> FamiliesKept(old_, new_)
  {
    hide EntryKey, Keyed, FamilyFound, Indexes, ArrayField;
    var before := ArrayField(old_, "families");
    if before.None? {
      report.Push(Missing("schema", "families"));
      return;
    }
    var after := ArrayField(new_, "families");
    if after.None? {
      report.Push(Missing("schema", "families"));
      return;
    }
    var newById, problem := Index(after.value, ["id"], "families");
    if problem.Some? {
      report.Push(BadKey("families"));
      return;
    }
    CompareEachFamily(before.value, after.value, newById, report);
  }

  /** The loop over the old families. */
  method CompareEachFamily(before: seq<Value>, after: seq<Value>, newById: map<string, Value>, report: Report)
    requires Indexes(newById, after, ["id"]) && Keyed(after, ["id"])
    modifies report
    ensures |report.problems| >= |old(report.problems)|
    ensures |report.problems| == |old(report.problems)| <==> FoundUpTo(before, after, |before|)
  {
    hide EntryKey, FamilyFound, Indexes, Keyed, SameFields, SectionsKept;
    ghost var start := |report.problems|;
    var i := 0;
    while i < |before|
      invariant 0 <= i <= |before| && |report.problems| >= start
      invariant |report.problems| == start <==> FoundUpTo(before, after, i)
    {
      var family := before[i];
      LookupDecidesFamily(newById, after, family);
      var key := EntryKey(family, ["id"]);
      if key.None? {
        report.Push(BadKey("families"));
      } else if key.value !in newById {
        report.Push(Removed("families", key.value));
      } else {
        var path := "family (" + key.value + ")";
        CompareFields(family, newById[key.value], path, FAMILY_FIELDS, report);
        CompareSections(family, newById[key.value], FAMILY_SECTIONS, path, report);
      }
      i := i + 1;
    }
  }

  method CompareObjects(
      old_: Value, new_: Value, field: string, fields: seq<string>, sections: seq<Section>, report: Report)
    modifies report
    ensures |report.problems| >= |old(report.problems)|
    ensures |report.problems| == |old(report.problems)| <==> ObjectKept(old_, new_, field, fields, sections)
  {
    hide SectionsKept, SameFields;
    var before, after := ObjectField(old_, field), ObjectField(new_, field);
    if before.None? {
      report.Push(Missing("schema", field));
    }
    if after.None? {
      report.Push(Missing("schema", field));
    }
    if before.Some? && after.Some? {
      CompareFields(before.value, after.value, field, fields, report);
      CompareSections(before.value, after.value, sections, field, report);
    }
  }

  /** `check`: no problem is reported exactly when the schemas are compatible. */
  method Check(baseline: Value, current: Value) returns (ok: bool)
    ensures ok <==> Compatible(baseline, current)
  {
    hide SectionKept, FamiliesKept, ObjectKept, SameFields;
    var report := new Report();
    CompareFields(baseline, current, "schema", ["schema"], report);
    CompareObjects(baseline, current, "transport", TRANSPORT_FIELDS, [TRANSPORT_CODECS], report);
    CompareObjects(baseline, current, "state", ["schema"], [STATE_CONSTANTS, STATE_TYPES], report);
    CompareArrayEntries(baseline, current, STATUSES, "statuses", report);
    CompareArrayEntries(baseline, current, CODECS, "codecs", report);
    CompareFamilies(baseline, current, report);
    ok := report.problems == [];
  }

  // ---------------------------------------------------------------------------------------
  // A preorder
  // ---------------------------------------------------------------------------------------

  lemma SameFieldsTransitive(a: Value, b: Value, c: Value, fields: seq<string>)
    requires SameFields(a, b, fields) && SameFields(b, c, fields)
    ensures SameFields(a, c, fields)
  {
    hide Get;
  }

  lemma SectionTransitive(a: Value, b: Value, c: Value, s: Section)
    requires SectionKept(a, b, s) && SectionKept(b, c, s)
    ensures SectionKept(a, c, s)
  {
    hide EntryKey, Keyed, SameFields, ArrayField;
    var x, y, z := ArrayField(a, s.field).value, ArrayField(b, s.field).value, ArrayField(c, s.field).value;
    forall i | 0 <= i < |x| ensures Kept(x[i], z, s) {
      assert Kept(x[i], y, s);
      var j :| 0 <= j < |y| && SameKey(x[i], y[j], s.keys) && SameFields(x[i], y[j], s.fields);
      assert Kept(y[j], z, s);
      var k :| 0 <= k < |z| && SameKey(y[j], z[k], s.keys) && SameFields(y[j], z[k], s.fields);
      SameFieldsTransitive(x[i], y[j], z[k], s.fields);
      assert SameKey(x[i], z[k], s.keys);
    }
  }

  lemma SectionsTransitive(a: Value, b: Value, c: Value, sections: seq<Section>)
    requires SectionsKept(a, b, sections) && SectionsKept(b, c, sections)
    ensures SectionsKept(a, c, sections)
  {
    hide SectionKept;
    forall i | 0 <= i < |sections| ensures SectionKept(a, c, sections[i]) {
      SectionTransitive(a, b, c, sections[i]);
    }
  }

  lemma FamiliesTransitive(a: Value, b: Value, c: Value)
    requires FamiliesKept(a, b) && FamiliesKept(b, c)
    ensures FamiliesKept(a, c)
  {
    hide EntryKey, Keyed, SectionsKept, SameFields, ArrayField;
    var x, y, z := ArrayField(a, "families").value, ArrayField(b, "families").value, ArrayField(c, "families").value;
    forall i | 0 <= i < |x| ensures FamilyFound(x[i], z) {
      assert FamilyFound(x[i], y);
      var j :| 0 <= j < |y| && SameKey(x[i], y[j], ["id"]) && FamilyKept(x[i], y[j]);
      assert FamilyFound(y[j], z);
      var k :| 0 <= k < |z| && SameKey(y[j], z[k], ["id"]) && FamilyKept(y[j], z[k]);
      SectionsTransitive(x[i], y[j], z[k], FAMILY_SECTIONS);
      SameFieldsTransitive(x[i], y[j], z[k], FAMILY_FIELDS);
      assert SameKey(x[i], z[k], ["id"]);
    }
  }

  /** Compatibility is transitive, for any JSON values whatever. */
  lemma CompatibleTransitive(a: Value, b: Value, c: Value)
    requires Compatible(a, b) && Compatible(b, c)
    ensures Compatible(a, c)
  {
    hide SectionKept, FamiliesKept, SectionsKept;
    SectionsTransitive(ObjectField(a, "transport").value,
        ObjectField(b, "transport").value, ObjectField(c, "transport").value, [TRANSPORT_CODECS]);
    SectionsTransitive(ObjectField(a, "state").value, ObjectField(b, "state").value,
        ObjectField(c, "state").value, [STATE_CONSTANTS, STATE_TYPES]);
    SectionTransitive(a, b, c, STATUSES);
    SectionTransitive(a, b, c, CODECS);
    FamiliesTransitive(a, b, c);
  }

  predicate SectionKeyed(v: Value, s: Section) {
    ArrayField(v, s.field).Some? && Keyed(ArrayField(v, s.field).value, s.keys)
  }

  predicate SectionsKeyed(v: Value, sections: seq<Section>) {
    forall i :: 0 <= i < |sections| ==> SectionKeyed(v, sections[i])
  }

  /** Every list a schema must have is there, and its entries have distinct scalar keys. */
  predicate WellKeyed(v: Value) {
    && ObjectField(v, "transport").Some? && SectionsKeyed(ObjectField(v, "transport").value, [TRANSPORT_CODECS])
    && ObjectField(v, "state").Some? && SectionsKeyed(ObjectField(v, "state").value, [STATE_CONSTANTS, STATE_TYPES])
    && SectionKeyed(v, STATUSES) && SectionKeyed(v, CODECS)
    && ArrayField(v, "families").Some? && Keyed(ArrayField(v, "families").value, ["id"])
    && forall i :: 0 <= i < |ArrayField(v, "families").value| ==>
         SectionsKeyed(ArrayField(v, "families").value[i], FAMILY_SECTIONS)
  }

  lemma SectionReflexive(v: Value, s: Section)
    ensures SectionKept(v, v, s) <==> SectionKeyed(v, s)
  {
    hide EntryKey;
    if SectionKeyed(v, s) {
      var x := ArrayField(v, s.field).value;
      forall i | 0 <= i < |x| ensures Kept(x[i], x, s) {
        assert SameKey(x[i], x[i], s.keys) && SameFields(x[i], x[i], s.fields);
      }
    }
  }

  lemma SectionsReflexive(v: Value, sections: seq<Section>)
    ensures SectionsKept(v, v, sections) <==> SectionsKeyed(v, sections)
  {
    hide SectionKept, SectionKeyed;
    forall i | 0 <= i < |sections| ensures SectionKept(v, v, sections[i]) <==> SectionKeyed(v, sections[i]) {
      SectionReflexive(v, sections[i]);
    }
  }

  lemma FamiliesReflexive(v: Value)
    ensures FamiliesKept(v, v) <==>
      && ArrayField(v, "families").Some? && Keyed(ArrayField(v, "families").value, ["id"])
      && forall i :: 0 <= i < |ArrayField(v, "families").value| ==>
            SectionsKeyed(ArrayField(v, "families").value[i], FAMILY_SECTIONS)
  {
    hide EntryKey, SectionsKept, SectionsKeyed;
    if ArrayField(v, "families").Some? && Keyed(ArrayField(v, "families").value, ["id"]) {
      var x := ArrayField(v, "families").value;
      forall i | 0 <= i < |x| ensures FamilyFound(x[i], x) <==> SectionsKeyed(x[i], FAMILY_SECTIONS) {
        SectionsReflexive(x[i], FAMILY_SECTIONS);
        assert SameKey(x[i], x[i], ["id"]);
        if FamilyFound(x[i], x) {
          var j :| 0 <= j < |x| && SameKey(x[i], x[j], ["id"]) && FamilyKept(x[i], x[j]);
          assert i == j;
        }
      }
    }
  }

  /** A schema is compatible with itself exactly when its lists are there and well keyed. */
  lemma CompatibleReflexive(v: Value)
    ensures Compatible(v, v) <==> WellKeyed(v)
  {
    hide SectionKept, SectionKeyed, FamiliesKept, SectionsKept, SectionsKeyed, Keyed;
    if ObjectField(v, "transport").Some? {
      SectionsReflexive(ObjectField(v, "transport").value, [TRANSPORT_CODECS]);
    }
    if ObjectField(v, "state").Some? {
      SectionsReflexive(ObjectField(v, "state").value, [STATE_CONSTANTS, STATE_TYPES]);
    }
    SectionReflexive(v, STATUSES);
    SectionReflexive(v, CODECS);
    FamiliesReflexive(v);
  }

  // ---------------------------------------------------------------------------------------
  // Keys of two fields
  // ---------------------------------------------------------------------------------------

  /** The texts of a codec entry's two key fields. */
  function CodecTexts(entry: Value): Option<(string, string)> {
    var family, id := Scalar(Get(entry, "family")), Scalar(Get(entry, "id"));
    if family.Some? && id.Some? then Some((family.value, id.value)) else None
  }

  function Joined(texts: (string, string)): string { texts.0 + "/" + texts.1 }

  lemma CodecKey(entry: Value)
    ensures EntryKey(entry, CODECS.keys)
         == match CodecTexts(entry) case None => None case Some(texts) => Some(Joined(texts))
  {
    var keys := CODECS.keys;
    assert keys[1..] == ["id"];
    assert EntryKey(entry, keys[1..]) == Scalar(Get(entry, "id"));
  }

  function CodecEntry(family: string, id: string): Value {
    Object(map["family" := Str(family), "id" := Str(id)])
  }

  predicate Slashed(texts: (string, string)) { '/' in texts.0 || '/' in texts.1 }

  /** Texts without slashes are read back from their joined form. */
  lemma SlashFreeJoinsDiffer(x: (string, string), y: (string, string))
    requires !Slashed(x) && Joined(x) == Joined(y)
    ensures x == y
  {
    var j, m, n := Joined(x), |x.0|, |y.0|;
    assert j[m] == '/' && j[n] == '/';
    assert forall i :: 0 <= i < m ==> j[i] == x.0[i];
    assert forall i :: m < i < |j| ==> j[i] == x.1[i - m - 1];
    assert m == n;
    assert x.0 == j[..m] == y.0 && x.1 == j[m + 1..] == y.1;
  }

  /** Texts with a slash can be cut there instead, into two other texts. */
  lemma SlashedJoinsCollide(x: (string, string)) returns (y: (string, string))
    requires Slashed(x)
    ensures Joined(y) == Joined(x) && y.0 != x.0 && y.1 != x.1
  {
    if '/' in x.0 {
      var i :| 0 <= i < |x.0| && x.0[i] == '/';
      y := (x.0[..i], x.0[i + 1..] + "/" + x.1);
      assert x.0 == x.0[..i] + "/" + x.0[i + 1..];
      assert |y.0| < |x.0| && |y.1| > |x.1|;
    } else {
      var i :| 0 <= i < |x.1| && x.1[i] == '/';
      y := (x.0 + "/" + x.1[..i], x.1[i + 1..]);
      assert x.1 == x.1[..i] + "/" + x.1[i + 1..];
      assert |y.0| > |x.0| && |y.1| < |x.1|;
    }
  }

  /** A joined key identifies an entry's two key fields exactly when neither holds a slash. */
  lemma JoinedKeyIdentifies(x: (string, string))
    ensures (forall entry :: EntryKey(entry, CODECS.keys) == Some(Joined(x)) ==> CodecTexts(entry) == Some(x))
       <==> !Slashed(x)
  {
    hide EntryKey, CodecTexts, Joined, Slashed;
    if Slashed(x) {
      var y := SlashedJoinsCollide(x);
      var entry := CodecEntry(y.0, y.1);
      CodecKey(entry);
      EntryTexts(y.0, y.1);
      assert EntryKey(entry, CODECS.keys) == Some(Joined(x)) && CodecTexts(entry) != Some(x);
    } else {
      forall entry | EntryKey(entry, CODECS.keys) == Some(Joined(x)) ensures CodecTexts(entry) == Some(x) {
        CodecKey(entry);
        SlashFreeJoinsDiffer(x, CodecTexts(entry).value);
      }
    }
  }

  lemma EntryTexts(family: string, id: string)
    ensures CodecTexts(CodecEntry(family, id)) == Some((family, id))
  {
  }

  /** Every entry has its two key fields and no two entries share both. */
  predicate PairKeyed(entries: seq<Value>) {
    && (forall i :: 0 <= i < |entries| ==> CodecTexts(entries[i]).Some?)
    && (forall i, j :: 0 <= i < j < |entries| ==> CodecTexts(entries[i]) != CodecTexts(entries[j]))
  }

  /** Codec entries free of slashes pass as keyed exactly when no two share both key fields. */
  lemma SlashFreeCodecsAreKeyed(entries: seq<Value>)
    requires forall i :: 0 <= i < |entries| && CodecTexts(entries[i]).Some? ==> !Slashed(CodecTexts(entries[i]).value)
    ensures Keyed(entries, CODECS.keys) <==> PairKeyed(entries)
  {
    hide EntryKey, CodecTexts, Joined, Slashed;
    forall i | 0 <= i < |entries|
      ensures EntryKey(entries[i], CODECS.keys).Some? <==> CodecTexts(entries[i]).Some?
    {
      CodecKey(entries[i]);
    }
    forall i, j | 0 <= i < j < |entries| && CodecTexts(entries[i]).Some? && CodecTexts(entries[j]).Some?
      ensures EntryKey(entries[i], CODECS.keys) == EntryKey(entries[j], CODECS.keys) <==>
          CodecTexts(entries[i]) == CodecTexts(entries[j])
    {
      CodecKey(entries[i]);
      CodecKey(entries[j]);
      if Joined(CodecTexts(entries[i]).value) == Joined(CodecTexts(entries[j]).value) {
        SlashFreeJoinsDiffer(CodecTexts(entries[i]).value, CodecTexts(entries[j]).value);
      }
    }
  }

  /**
    What a slash costs: for every codec entry with one there is another that shares neither key
    field, and no schema that lists both is compatible with anything, itself included.
   */
  lemma SlashedCodecsAreRejected(x: (string, string)) returns (y: (string, string))
    requires Slashed(x)
    ensures x.0 != y.0 && x.1 != y.1 && PairKeyed([CodecEntry(x.0, x.1), CodecEntry(y.0, y.1)])
    ensures NeverTogether(CodecEntry(x.0, x.1), CodecEntry(y.0, y.1))
  {
    hide EntryKey, Joined, Slashed, CodecTexts, NeverTogether;
    y := SlashedJoinsCollide(x);
    var a, b := CodecEntry(x.0, x.1), CodecEntry(y.0, y.1);
    CodecKey(a);
    CodecKey(b);
    EntryTexts(x.0, x.1);
    EntryTexts(y.0, y.1);
    CollidingNeverTogether(a, b);
  }

  /** Two different places of a schema's codec list hold the two entries. */
  predicate Lists(v: Value, a: Value, b: Value, i: nat, j: nat) {
    var codecs := ArrayField(v, CODECS.field);
    codecs.Some? && i < |codecs.value| && j < |codecs.value| && i != j && codecs.value[i] == a && codecs.value[j] == b
  }

  ghost predicate NeverTogether(a: Value, b: Value) {
    forall v, i: nat, j: nat :: Lists(v, a, b, i, j) ==> !WellKeyed(v) && forall baseline :: !Compatible(baseline, v)
  }

  lemma CollidingNeverTogether(a: Value, b: Value)
    requires EntryKey(a, CODECS.keys) == EntryKey(b, CODECS.keys)
    ensures NeverTogether(a, b)
  {
    hide EntryKey, Lists, Compatible, WellKeyed;
    forall v, i: nat, j: nat | Lists(v, a, b, i, j)
      ensures !WellKeyed(v) && forall baseline :: !Compatible(baseline, v)
    {
      CollisionIsRejected(v, v, a, b, i, j);
      forall baseline ensures !Compatible(baseline, v) {
        CollisionIsRejected(baseline, v, a, b, i, j);
      }
    }
  }

  lemma CollisionIsRejected(baseline: Value, v: Value, a: Value, b: Value, i: nat, j: nat)
    requires Lists(v, a, b, i, j) && EntryKey(a, CODECS.keys) == EntryKey(b, CODECS.keys)
    ensures !WellKeyed(v) && !Compatible(baseline, v)
  {
    hide EntryKey, SectionsKeyed, SectionsKept, FamiliesKept, Kept;
    assert !Keyed(ArrayField(v, CODECS.field).value, CODECS.keys);
  }

  /** Two pairs of texts that differ in both places and join to the same key. */
  lemma JoinedKeysCollide()
    ensures Joined(("a", "b/c")) == Joined(("a/b", "c"))
  {
    var a, b, c := "a", "b", "c";
    assert (a + "/") + (b + "/" + c) == (a + "/" + b) + "/" + c;
    assert "b/c" == b + "/" + c && "a/b" == a + "/" + b;
  }

  // ---------------------------------------------------------------------------------------
  // Appending
  // ---------------------------------------------------------------------------------------

  /** More entries after the old ones, all keys still distinct. */
  predicate SectionGrown(v: Value, v': Value, s: Section) {
    var before, after := ArrayField(v, s.field), ArrayField(v', s.field);
    before.Some? && after.Some? && before.value <= after.value && Keyed(after.value, s.keys)
  }

  predicate SectionsGrown(v: Value, v': Value, sections: seq<Section>) {
    forall i :: 0 <= i < |sections| ==> SectionGrown(v, v', sections[i])
  }

  predicate ObjectGrown(v: Value, v': Value, field: string, fields: seq<string>, sections: seq<Section>) {
    var before, after := ObjectField(v, field), ObjectField(v', field);
    before.Some? && after.Some? && SameFields(before.value, after.value, fields)
    && SectionsGrown(before.value, after.value, sections)
  }

  predicate FamilyGrown(family: Value, family': Value) {
    SameFields(family, family', FAMILY_FIELDS) && SectionsGrown(family, family', FAMILY_SECTIONS)
  }

  /** `v'` is `v` with entries of fresh keys appended to any of its lists, at any level. */
  predicate Grown(v: Value, v': Value) {
    && SameFields(v, v', ["schema"])
    && ObjectGrown(v, v', "transport", TRANSPORT_FIELDS, [TRANSPORT_CODECS])
    && ObjectGrown(v, v', "state", ["schema"], [STATE_CONSTANTS, STATE_TYPES])
    && SectionGrown(v, v', STATUSES) && SectionGrown(v, v', CODECS)
    && var before, after := ArrayField(v, "families"), ArrayField(v', "families");
       before.Some? && after.Some? && Keyed(after.value, ["id"]) && |before.value| <= |after.value|
       && forall i :: 0 <= i < |before.value| ==> FamilyGrown(before.value[i], after.value[i])
  }

  lemma SectionKeptWhenGrown(a: Value, b: Value, b': Value, s: Section)
    requires SectionKept(a, b, s) && SectionGrown(b, b', s)
    ensures SectionKept(a, b', s)
  {
    hide EntryKey;
    var x, y, y' := ArrayField(a, s.field).value, ArrayField(b, s.field).value, ArrayField(b', s.field).value;
    forall i | 0 <= i < |x| ensures Kept(x[i], y', s) {
      var j :| 0 <= j < |y| && SameKey(x[i], y[j], s.keys) && SameFields(x[i], y[j], s.fields);
      assert y'[j] == y[j];
    }
  }

  lemma SectionsKeptWhenGrown(a: Value, b: Value, b': Value, sections: seq<Section>)
    requires SectionsKept(a, b, sections) && SectionsGrown(b, b', sections)
    ensures SectionsKept(a, b', sections)
  {
    hide SectionKept, SectionGrown;
    forall i | 0 <= i < |sections| ensures SectionKept(a, b', sections[i]) {
      SectionKeptWhenGrown(a, b, b', sections[i]);
    }
  }

  lemma IdIsAField(family: Value, family': Value)
    requires SameFields(family, family', FAMILY_FIELDS)
    ensures EntryKey(family, ["id"]) == EntryKey(family', ["id"])
  {
    assert FAMILY_FIELDS[2] == "id";
  }

  lemma FamiliesKeptWhenGrown(a: Value, b: Value, b': Value)
    requires FamiliesKept(a, b) && Grown(b, b')
    ensures FamiliesKept(a, b')
  {
    hide EntryKey, SectionsKept, SectionsGrown;
    var x, y, y' := ArrayField(a, "families").value, ArrayField(b, "families").value, ArrayField(b', "families").value;
    forall i | 0 <= i < |x| ensures FamilyFound(x[i], y') {
      var j :| 0 <= j < |y| && SameKey(x[i], y[j], ["id"]) && FamilyKept(x[i], y[j]);
      assert FamilyGrown(y[j], y'[j]);
      IdIsAField(y[j], y'[j]);
      SectionsKeptWhenGrown(x[i], y[j], y'[j], FAMILY_SECTIONS);
      assert SameKey(x[i], y'[j], ["id"]) && FamilyKept(x[i], y'[j]);
    }
  }

  /** Appending entries with fresh keys, at any levels at once, never breaks compatibility. */
  lemma AppendingKeepsCompatible(a: Value, b: Value, b': Value)
    requires Compatible(a, b) && Grown(b, b')
    ensures Compatible(a, b')
  {
    FamiliesKeptWhenGrown(a, b, b');
    hide SectionKept, FamiliesKept, SectionsKept, SectionGrown, SectionsGrown;
    SectionsKeptWhenGrown(ObjectField(a, "transport").value,
        ObjectField(b, "transport").value, ObjectField(b', "transport").value, [TRANSPORT_CODECS]);
    SectionsKeptWhenGrown(ObjectField(a, "state").value, ObjectField(b, "state").value,
        ObjectField(b', "state").value, [STATE_CONSTANTS, STATE_TYPES]);
    SectionKeptWhenGrown(a, b, b', STATUSES);
    SectionKeptWhenGrown(a, b, b', CODECS);
  }
}
