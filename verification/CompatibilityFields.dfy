/**
  What wire compatibility keeps, field by field: the contract written out by name, and that the
  checker's tables say exactly this.
*/
module CompatibilityFields {
  import opened Common
  import opened Compatibility

  // ---------------------------------------------------------------------------------------
  // The contract
  // ---------------------------------------------------------------------------------------

  predicate Same(a: Value, b: Value, field: string) { Get(a, field) == Get(b, field) }

  /** The text of a string or number field. */
  function TextOf(v: Value, field: string): Option<string> {
    if v.Object? && field in v.fields && (v.fields[field].Str? || v.fields[field].Number?)
    then Some(v.fields[field].text) else None
  }

  function Id(v: Value): Option<string> { TextOf(v, "id") }

  function Kind(v: Value): Option<string> { TextOf(v, "kind") }

  function Tag(v: Value): Option<string> { TextOf(v, "tag") }

  function Name(v: Value): Option<string> { TextOf(v, "name") }

  function Code(v: Value): Option<string> { TextOf(v, "code") }

  function FamilyAndId(v: Value): Option<string> {
    var family, id := TextOf(v, "family"), TextOf(v, "id");
    if family.Some? && id.Some? then Some(family.value + "/" + id.value) else None
  }

  /** A request or an event. */
  predicate SameOperation(a: Value, b: Value) {
    && Same(a, b, "name") && Same(a, b, "kind") && Same(a, b, "direction") && Same(a, b, "sensitive")
    && Same(a, b, "compression") && Same(a, b, "datagram") && Same(a, b, "layout")
  }

  predicate SameLimit(a: Value, b: Value) {
    && Same(a, b, "name") && Same(a, b, "tag") && Same(a, b, "type")
    && Same(a, b, "required") && Same(a, b, "hard_min") && Same(a, b, "hard_max")
  }

  predicate SameType(a: Value, b: Value) { Same(a, b, "name") && Same(a, b, "layout") }

  predicate SameConstant(a: Value, b: Value) { Same(a, b, "name") && Same(a, b, "value") }

  predicate SameStatus(a: Value, b: Value) { Same(a, b, "name") && Same(a, b, "code") }

  /** A compression of the transport. */
  predicate SameCompression(a: Value, b: Value) { Same(a, b, "name") && Same(a, b, "id") }

  /** A packed codec. */
  predicate SameCodec(a: Value, b: Value) {
    && Same(a, b, "schema") && Same(a, b, "name") && Same(a, b, "const_name") && Same(a, b, "family")
    && Same(a, b, "id") && Same(a, b, "version") && Same(a, b, "direction") && Same(a, b, "layout")
    && Same(a, b, "golden_hex") && Same(a, b, "constants")
  }

  predicate FoundIn(x: Value, ys: seq<Value>, key: Value -> Option<string>, same: (Value, Value) -> bool) {
    exists j :: 0 <= j < |ys| && key(x).Some? && key(x) == key(ys[j]) && same(x, ys[j])
  }

  predicate DistinctKeys(ys: seq<Value>, key: Value -> Option<string>) {
    && (forall j :: 0 <= j < |ys| ==> key(ys[j]).Some?)
    && (forall i, j :: 0 <= i < j < |ys| ==> key(ys[i]) != key(ys[j]))
  }

  /** Every entry of `a`'s list is in `b`'s under its key and the same, and `b`'s keys are distinct. */
  predicate EachFound(
      a: Value, b: Value, list: string, key: Value -> Option<string>, same: (Value, Value) -> bool) {
    var before, after := ArrayField(a, list), ArrayField(b, list);
    && before.Some? && after.Some? && DistinctKeys(after.value, key)
    && (forall i :: 0 <= i < |before.value| ==> FoundIn(before.value[i], after.value, key, same))
  }

  predicate SameFamily(a: Value, b: Value) {
    && Same(a, b, "name") && Same(a, b, "const_name") && Same(a, b, "id") && Same(a, b, "version")
    && Same(a, b, "dependencies")
    && EachFound(a, b, "requests", Kind, SameOperation)
    && EachFound(a, b, "events", Kind, SameOperation)
    && EachFound(a, b, "limits", Tag, SameLimit)
    && EachFound(a, b, "types", Name, SameType)
    && EachFound(a, b, "constants", Name, SameConstant)
  }

  predicate SameTransport(a: Value, b: Value) {
    && Same(a, b, "schema") && Same(a, b, "preface_hex") && Same(a, b, "protocol_major")
    && Same(a, b, "websocket_subprotocol") && Same(a, b, "stream_length_bits")
    && Same(a, b, "event_header_bytes") && Same(a, b, "correlated_header_bytes")
    && Same(a, b, "header") && Same(a, b, "class") && Same(a, b, "meta")
    && Same(a, b, "datagram_predicate") && Same(a, b, "limits")
    && EachFound(a, b, "codec", Id, SameCompression)
  }

  predicate SameState(a: Value, b: Value) {
    && Same(a, b, "schema")
    && EachFound(a, b, "constant", Name, SameConstant)
    && EachFound(a, b, "type", Name, SameType)
  }

  predicate ObjectSame(a: Value, b: Value, field: string, same: (Value, Value) -> bool) {
    && ObjectField(a, field).Some? && ObjectField(b, field).Some?
    && same(ObjectField(a, field).value, ObjectField(b, field).value)
  }

  /** Everything a baseline promises about the wire. */
  predicate KeepsContract(a: Value, b: Value) {
    && Same(a, b, "schema")
    && ObjectSame(a, b, "transport", SameTransport)
    && ObjectSame(a, b, "state", SameState)
    && EachFound(a, b, "statuses", Code, SameStatus)
    && EachFound(a, b, "codecs", FamilyAndId, SameCodec)
    && EachFound(a, b, "families", Id, SameFamily)
  }

  // ---------------------------------------------------------------------------------------
  // The checker's tables say this
  // ---------------------------------------------------------------------------------------

  lemma OneKey(v: Value, key: string)
    ensures EntryKey(v, [key]) == TextOf(v, key)
  {
  }

  lemma TwoKeys(v: Value)
    ensures EntryKey(v, ["family", "id"]) == FamilyAndId(v)
  {
    hide TextOf;
    OneKey(v, "family");
    OneKey(v, "id");
    assert ["family", "id"][1..] == ["id"];
  }

  lemma OperationFields(a: Value, b: Value)
    ensures SameFields(a, b, OPERATION_FIELDS) <==> SameOperation(a, b)
  {
    hide Get;
    var f := OPERATION_FIELDS;
    assert f[0] == "name" && f[1] == "kind" && f[2] == "direction" && f[3] == "sensitive";
    assert f[4] == "compression" && f[5] == "datagram" && f[6] == "layout";
  }

  lemma LimitFields(a: Value, b: Value)
    ensures SameFields(a, b, FAMILY_SECTIONS[2].fields) <==> SameLimit(a, b)
  {
    hide Get;
    var f := FAMILY_SECTIONS[2].fields;
    assert f[0] == "name" && f[1] == "tag" && f[2] == "type" && f[3] == "required" && f[4] == "hard_min";
    assert f[5] == "hard_max";
  }

  lemma TypeFields(a: Value, b: Value)
    ensures SameFields(a, b, STATE_TYPES.fields) <==> SameType(a, b)
  {
    hide Get;
    var f := STATE_TYPES.fields;
    assert f[0] == "name" && f[1] == "layout";
  }

  lemma ConstantFields(a: Value, b: Value)
    ensures SameFields(a, b, STATE_CONSTANTS.fields) <==> SameConstant(a, b)
  {
    hide Get;
    var f := STATE_CONSTANTS.fields;
    assert f[0] == "name" && f[1] == "value";
  }

  lemma StatusFields(a: Value, b: Value)
    ensures SameFields(a, b, STATUSES.fields) <==> SameStatus(a, b)
  {
    hide Get;
    var f := STATUSES.fields;
    assert f[0] == "name" && f[1] == "code";
  }

  lemma CompressionFields(a: Value, b: Value)
    ensures SameFields(a, b, TRANSPORT_CODECS.fields) <==> SameCompression(a, b)
  {
    hide Get;
    var f := TRANSPORT_CODECS.fields;
    assert f[0] == "name" && f[1] == "id";
  }

  lemma CodecFields(a: Value, b: Value)
    ensures SameFields(a, b, CODECS.fields) <==> SameCodec(a, b)
  {
    hide Get;
    var f := CODECS.fields;
    assert f[0] == "schema" && f[1] == "name" && f[2] == "const_name" && f[3] == "family" && f[4] == "id";
    assert f[5] == "version" && f[6] == "direction" && f[7] == "layout" && f[8] == "golden_hex";
    assert f[9] == "constants";
  }

  /** A table that names the key and the fields compares lists as the contract does. */
  lemma SectionInWords(a: Value, b: Value, s: Section, key: Value -> Option<string>, same: (Value, Value) -> bool)
    requires forall x :: EntryKey(x, s.keys) == key(x)
    requires forall x, y :: SameFields(x, y, s.fields) <==> same(x, y)
    ensures SectionKept(a, b, s) <==> EachFound(a, b, s.field, key, same)
  {
    hide EntryKey, SameFields, ArrayField, Keyed, DistinctKeys, Kept, FoundIn;
    if ArrayField(a, s.field).Some? && ArrayField(b, s.field).Some? {
      var before, after := ArrayField(a, s.field).value, ArrayField(b, s.field).value;
      KeyedInWords(after, s.keys, key);
      forall i | 0 <= i < |before| ensures Kept(before[i], after, s) <==> FoundIn(before[i], after, key, same) {
        KeptInWords(before[i], after, s, key, same);
      }
    }
  }

  lemma KeyedInWords(ys: seq<Value>, keys: seq<string>, key: Value -> Option<string>)
    requires forall x :: EntryKey(x, keys) == key(x)
    ensures Keyed(ys, keys) <==> DistinctKeys(ys, key)
  {
    hide EntryKey;
  }

  lemma KeptInWords(
      x: Value, ys: seq<Value>, s: Section, key: Value -> Option<string>, same: (Value, Value) -> bool)
    requires forall x :: EntryKey(x, s.keys) == key(x)
    requires forall x, y :: SameFields(x, y, s.fields) <==> same(x, y)
    ensures Kept(x, ys, s) <==> FoundIn(x, ys, key, same)
  {
    hide EntryKey, SameFields;
  }

  lemma OperationsInWords(a: Value, b: Value, list: string)
    ensures SectionKept(a, b, Section(list, ["kind"], OPERATION_FIELDS)) <==> EachFound(a, b, list, Kind, SameOperation)
  {
    hide EntryKey, TextOf, SameFields, SameOperation, SectionKept, EachFound;
    forall x ensures EntryKey(x, ["kind"]) == Kind(x) {
      OneKey(x, "kind");
    }
    forall x, y ensures SameFields(x, y, OPERATION_FIELDS) <==> SameOperation(x, y) {
      OperationFields(x, y);
    }
    SectionInWords(a, b, Section(list, ["kind"], OPERATION_FIELDS), Kind, SameOperation);
  }

  lemma LimitsInWords(a: Value, b: Value)
    ensures SectionKept(a, b, FAMILY_SECTIONS[2]) <==> EachFound(a, b, "limits", Tag, SameLimit)
  {
    hide EntryKey, TextOf, SameFields, SameLimit, SectionKept, EachFound;
    forall x ensures EntryKey(x, FAMILY_SECTIONS[2].keys) == Tag(x) {
      OneKey(x, "tag");
    }
    forall x, y ensures SameFields(x, y, FAMILY_SECTIONS[2].fields) <==> SameLimit(x, y) {
      LimitFields(x, y);
    }
    SectionInWords(a, b, FAMILY_SECTIONS[2], Tag, SameLimit);
  }

  lemma TypesInWords(a: Value, b: Value, list: string)
    ensures SectionKept(a, b, Section(list, ["name"], ["name", "layout"])) <==> EachFound(a, b, list, Name, SameType)
  {
    hide EntryKey, TextOf, SameFields, SameType, SectionKept, EachFound;
    forall x ensures EntryKey(x, ["name"]) == Name(x) {
      OneKey(x, "name");
    }
    forall x, y ensures SameFields(x, y, ["name", "layout"]) <==> SameType(x, y) {
      TypeFields(x, y);
    }
    SectionInWords(a, b, Section(list, ["name"], ["name", "layout"]), Name, SameType);
  }

  lemma ConstantsInWords(a: Value, b: Value, list: string)
    ensures SectionKept(a, b, Section(list, ["name"], ["name", "value"])) <==> EachFound(a, b, list, Name, SameConstant)
  {
    hide EntryKey, TextOf, SameFields, SameConstant, SectionKept, EachFound;
    forall x ensures EntryKey(x, ["name"]) == Name(x) {
      OneKey(x, "name");
    }
    forall x, y ensures SameFields(x, y, ["name", "value"]) <==> SameConstant(x, y) {
      ConstantFields(x, y);
    }
    SectionInWords(a, b, Section(list, ["name"], ["name", "value"]), Name, SameConstant);
  }

  lemma StatusesInWords(a: Value, b: Value)
    ensures SectionKept(a, b, STATUSES) <==> EachFound(a, b, "statuses", Code, SameStatus)
  {
    hide EntryKey, TextOf, SameFields, SameStatus, SectionKept, EachFound;
    forall x ensures EntryKey(x, STATUSES.keys) == Code(x) {
      OneKey(x, "code");
    }
    forall x, y ensures SameFields(x, y, STATUSES.fields) <==> SameStatus(x, y) {
      StatusFields(x, y);
    }
    SectionInWords(a, b, STATUSES, Code, SameStatus);
  }

  lemma CodecsInWords(a: Value, b: Value)
    ensures SectionKept(a, b, CODECS) <==> EachFound(a, b, "codecs", FamilyAndId, SameCodec)
  {
    hide EntryKey, FamilyAndId, SameFields, SameCodec, SectionKept, EachFound;
    forall x ensures EntryKey(x, CODECS.keys) == FamilyAndId(x) {
      TwoKeys(x);
    }
    forall x, y ensures SameFields(x, y, CODECS.fields) <==> SameCodec(x, y) {
      CodecFields(x, y);
    }
    SectionInWords(a, b, CODECS, FamilyAndId, SameCodec);
  }

  lemma CompressionsInWords(a: Value, b: Value)
    ensures SectionKept(a, b, TRANSPORT_CODECS) <==> EachFound(a, b, "codec", Id, SameCompression)
  {
    hide EntryKey, TextOf, SameFields, SameCompression, SectionKept, EachFound;
    forall x ensures EntryKey(x, TRANSPORT_CODECS.keys) == Id(x) {
      OneKey(x, "id");
    }
    forall x, y ensures SameFields(x, y, TRANSPORT_CODECS.fields) <==> SameCompression(x, y) {
      CompressionFields(x, y);
    }
    SectionInWords(a, b, TRANSPORT_CODECS, Id, SameCompression);
  }

  lemma FamilyFieldsInWords(a: Value, b: Value)
    ensures SameFields(a, b, FAMILY_FIELDS) <==>
      && Same(a, b, "name") && Same(a, b, "const_name") && Same(a, b, "id") && Same(a, b, "version")
      && Same(a, b, "dependencies")
  {
    hide Get;
    var f := FAMILY_FIELDS;
    assert f[0] == "name" && f[1] == "const_name" && f[2] == "id" && f[3] == "version" && f[4] == "dependencies";
  }

  lemma FamilySectionsInWords(a: Value, b: Value)
    ensures SectionsKept(a, b, FAMILY_SECTIONS) <==>
      && EachFound(a, b, "requests", Kind, SameOperation) && EachFound(a, b, "events", Kind, SameOperation)
      && EachFound(a, b, "limits", Tag, SameLimit) && EachFound(a, b, "types", Name, SameType)
      && EachFound(a, b, "constants", Name, SameConstant)
  {
    hide SectionKept, EachFound;
    OperationsInWords(a, b, "requests");
    OperationsInWords(a, b, "events");
    LimitsInWords(a, b);
    TypesInWords(a, b, "types");
    ConstantsInWords(a, b, "constants");
    var s := FAMILY_SECTIONS;
    assert s[0].field == "requests" && s[1].field == "events" && s[2].field == "limits";
    assert s[3] == Section("types", ["name"], ["name", "layout"]);
    assert s[4] == Section("constants", ["name"], ["name", "value"]);
  }

  lemma FamilyInWords(a: Value, b: Value)
    ensures FamilyKept(a, b) <==> SameFamily(a, b)
  {
    hide SameFields, SectionsKept, EachFound, Get;
    FamilyFieldsInWords(a, b);
    FamilySectionsInWords(a, b);
  }

  lemma FamiliesInWords(a: Value, b: Value)
    ensures FamiliesKept(a, b) <==> EachFound(a, b, "families", Id, SameFamily)
  {
    hide EntryKey, TextOf, FamilyKept, SameFamily, ArrayField, Keyed, DistinctKeys, FamilyFound, FoundIn;
    forall x ensures EntryKey(x, ["id"]) == Id(x) {
      OneKey(x, "id");
    }
    if ArrayField(a, "families").Some? && ArrayField(b, "families").Some? {
      var before, after := ArrayField(a, "families").value, ArrayField(b, "families").value;
      KeyedInWords(after, ["id"], Id);
      forall i | 0 <= i < |before|
        ensures FamilyFound(before[i], after) <==> FoundIn(before[i], after, Id, SameFamily)
      {
        FoundInWords(before[i], after);
      }
    }
  }

  lemma FoundInWords(x: Value, ys: seq<Value>)
    ensures FamilyFound(x, ys) <==> FoundIn(x, ys, Id, SameFamily)
  {
    hide EntryKey, TextOf, FamilyKept, SameFamily;
    forall y ensures EntryKey(y, ["id"]) == Id(y) && (FamilyKept(x, y) <==> SameFamily(x, y)) {
      OneKey(y, "id");
      FamilyInWords(x, y);
    }
  }

  lemma TransportFieldsInWords(a: Value, b: Value)
    ensures SameFields(a, b, TRANSPORT_FIELDS) && EachFound(a, b, "codec", Id, SameCompression) <==> SameTransport(a, b)
  {
    hide Get, EachFound;
    var f := TRANSPORT_FIELDS;
    assert f[0] == "schema" && f[1] == "preface_hex" && f[2] == "protocol_major";
    assert f[3] == "websocket_subprotocol" && f[4] == "stream_length_bits" && f[5] == "event_header_bytes";
    assert f[6] == "correlated_header_bytes" && f[7] == "header" && f[8] == "class" && f[9] == "meta";
    assert f[10] == "datagram_predicate" && f[11] == "limits";
  }

  lemma TransportInWords(a: Value, b: Value)
    ensures ObjectKept(a, b, "transport", TRANSPORT_FIELDS, [TRANSPORT_CODECS])
       <==> ObjectSame(a, b, "transport", SameTransport)
  {
    hide SameFields, SectionKept, EachFound, ObjectField, SameTransport;
    if ObjectField(a, "transport").Some? && ObjectField(b, "transport").Some? {
      var x, y := ObjectField(a, "transport").value, ObjectField(b, "transport").value;
      TransportFieldsInWords(x, y);
      CompressionsInWords(x, y);
      assert [TRANSPORT_CODECS][0] == TRANSPORT_CODECS;
    }
  }

  lemma SchemaField(a: Value, b: Value)
    ensures SameFields(a, b, ["schema"]) <==> Same(a, b, "schema")
  {
    hide Get;
    assert ["schema"][0] == "schema";
  }

  lemma StateInWords(a: Value, b: Value)
    ensures ObjectKept(a, b, "state", ["schema"], [STATE_CONSTANTS, STATE_TYPES])
       <==> ObjectSame(a, b, "state", SameState)
  {
    hide SameFields, SectionKept, EachFound, ObjectField, Same;
    if ObjectField(a, "state").Some? && ObjectField(b, "state").Some? {
      var x, y := ObjectField(a, "state").value, ObjectField(b, "state").value;
      SchemaField(x, y);
      ConstantsInWords(x, y, "constant");
      TypesInWords(x, y, "type");
      var s := [STATE_CONSTANTS, STATE_TYPES];
      assert s[0] == Section("constant", ["name"], ["name", "value"]);
      assert s[1] == Section("type", ["name"], ["name", "layout"]);
    }
  }

  /** The checker accepts a schema exactly when it keeps the contract written out above. */
  lemma CompatibleInWords(a: Value, b: Value)
    ensures Compatible(a, b) <==> KeepsContract(a, b)
  {
    hide SameFields, SectionKept, EachFound, ObjectKept, ObjectSame, FamiliesKept, Same;
    SchemaField(a, b);
    TransportInWords(a, b);
    StateInWords(a, b);
    StatusesInWords(a, b);
    CodecsInWords(a, b);
    FamiliesInWords(a, b);
  }

  // ---------------------------------------------------------------------------------------
  // One changed field
  // ---------------------------------------------------------------------------------------

  predicate Lists(v: Value, list: string, entry: Value) {
    ArrayField(v, list).Some? && entry in ArrayField(v, list).value
  }

  /** The entry with the same key is the one it is compared with. */
  lemma TheEntryFound(
      a: Value, b: Value, list: string, key: Value -> Option<string>, same: (Value, Value) -> bool, x: Value, y: Value)
    requires EachFound(a, b, list, key, same) && Lists(a, list, x) && Lists(b, list, y)
    requires key(x) == key(y)
    ensures key(x).Some? && same(x, y)
  {
    hide ArrayField;
    var before, after := ArrayField(a, list).value, ArrayField(b, list).value;
    var i :| 0 <= i < |before| && before[i] == x;
    assert FoundIn(before[i], after, key, same);
    var j :| 0 <= j < |after| && key(x).Some? && key(x) == key(after[j]) && same(x, after[j]);
    var k :| 0 <= k < |after| && after[k] == y;
    assert j == k;
  }

  /** A family of the baseline and the current one of the same id. */
  predicate FamilyPair(a: Value, b: Value, f: Value, f': Value) {
    Lists(a, "families", f) && Lists(b, "families", f') && TextOf(f, "id") == TextOf(f', "id")
  }

  /** Two entries of a list. */
  predicate EntryPair(a: Value, b: Value, list: string, key: string, x: Value, y: Value) {
    Lists(a, list, x) && Lists(b, list, y) && TextOf(x, key) == TextOf(y, key)
  }

  lemma ChangedStatus(a: Value, b: Value, x: Value, y: Value, field: string)
    requires EntryPair(a, b, "statuses", "code", x, y)
    requires field in ["name", "code"] && !Same(x, y, field)
    ensures !Compatible(a, b)
  {
    hide EachFound, Compatible, Get, TextOf, ObjectSame, Lists;
    CompatibleInWords(a, b);
    if Compatible(a, b) {
      TheEntryFound(a, b, "statuses", Code, SameStatus, x, y);
    }
  }

  lemma ChangedCodec(a: Value, b: Value, x: Value, y: Value, field: string)
    requires EntryPair(a, b, "codecs", "id", x, y) && TextOf(x, "family") == TextOf(y, "family")
    requires field in ["schema", "name", "const_name", "family", "id", "version", "direction", "layout",
                       "golden_hex", "constants"] && !Same(x, y, field)
    ensures !Compatible(a, b)
  {
    hide EachFound, Compatible, Get, TextOf, ObjectSame, Lists;
    CompatibleInWords(a, b);
    if Compatible(a, b) {
      TheEntryFound(a, b, "codecs", FamilyAndId, SameCodec, x, y);
    }
  }

  lemma ChangedFamily(a: Value, b: Value, f: Value, f': Value, field: string)
    requires FamilyPair(a, b, f, f')
    requires field in ["name", "const_name", "id", "version", "dependencies"] && !Same(f, f', field)
    ensures !Compatible(a, b)
  {
    hide EachFound, Compatible, Get, TextOf, Lists;
    if Compatible(a, b) {
      TheFamily(a, b, f, f');
    }
  }

  lemma TheFamily(a: Value, b: Value, f: Value, f': Value)
    requires FamilyPair(a, b, f, f') && Compatible(a, b)
    ensures SameFamily(f, f')
  {
    hide EachFound, Compatible, Get, TextOf, ObjectSame, Lists, SameFamily;
    CompatibleInWords(a, b);
    TheEntryFound(a, b, "families", Id, SameFamily, f, f');
  }

  /** A request, or an event. */
  lemma ChangedOperation(a: Value, b: Value, f: Value, f': Value, list: string, x: Value, y: Value, field: string)
    requires FamilyPair(a, b, f, f') && list in ["requests", "events"] && EntryPair(f, f', list, "kind", x, y)
    requires field in ["name", "kind", "direction", "sensitive", "compression", "datagram", "layout"]
    requires !Same(x, y, field)
    ensures !Compatible(a, b)
  {
    hide EachFound, Compatible, Get, TextOf, Lists;
    if Compatible(a, b) {
      TheFamily(a, b, f, f');
      TheEntryFound(f, f', list, Kind, SameOperation, x, y);
    }
  }

  lemma ChangedLimit(a: Value, b: Value, f: Value, f': Value, x: Value, y: Value, field: string)
    requires FamilyPair(a, b, f, f') && EntryPair(f, f', "limits", "tag", x, y)
    requires field in ["name", "tag", "type", "required", "hard_min", "hard_max"] && !Same(x, y, field)
    ensures !Compatible(a, b)
  {
    hide EachFound, Compatible, Get, TextOf, Lists;
    if Compatible(a, b) {
      TheFamily(a, b, f, f');
      TheEntryFound(f, f', "limits", Tag, SameLimit, x, y);
    }
  }

  lemma ChangedType(a: Value, b: Value, f: Value, f': Value, x: Value, y: Value, field: string)
    requires FamilyPair(a, b, f, f') && EntryPair(f, f', "types", "name", x, y)
    requires field in ["name", "layout"] && !Same(x, y, field)
    ensures !Compatible(a, b)
  {
    hide EachFound, Compatible, Get, TextOf, Lists;
    if Compatible(a, b) {
      TheFamily(a, b, f, f');
      TheEntryFound(f, f', "types", Name, SameType, x, y);
    }
  }

  lemma ChangedConstant(a: Value, b: Value, f: Value, f': Value, x: Value, y: Value, field: string)
    requires FamilyPair(a, b, f, f') && EntryPair(f, f', "constants", "name", x, y)
    requires field in ["name", "value"] && !Same(x, y, field)
    ensures !Compatible(a, b)
  {
    hide EachFound, Compatible, Get, TextOf, Lists;
    if Compatible(a, b) {
      TheFamily(a, b, f, f');
      TheEntryFound(f, f', "constants", Name, SameConstant, x, y);
    }
  }

  /** The transport object. */
  lemma ChangedTransport(a: Value, b: Value, t: Value, t': Value, field: string)
    requires Get(a, "transport") == Some(t) && Get(b, "transport") == Some(t')
    requires field in ["schema", "preface_hex", "protocol_major", "websocket_subprotocol", "stream_length_bits",
                       "event_header_bytes", "correlated_header_bytes", "header", "class", "meta",
                       "datagram_predicate", "limits"] && !Same(t, t', field)
    ensures !Compatible(a, b)
  {
    hide EachFound, Compatible, Get;
    CompatibleInWords(a, b);
  }

  lemma ChangedCompression(a: Value, b: Value, t: Value, t': Value, x: Value, y: Value, field: string)
    requires Get(a, "transport") == Some(t) && Get(b, "transport") == Some(t') && EntryPair(t, t', "codec", "id", x, y)
    requires field in ["name", "id"] && !Same(x, y, field)
    ensures !Compatible(a, b)
  {
    hide EachFound, Compatible, Get, TextOf, Lists;
    CompatibleInWords(a, b);
    if Compatible(a, b) {
      TheEntryFound(t, t', "codec", Id, SameCompression, x, y);
    }
  }

  /** The schema version of the whole, or of the state object. */
  lemma ChangedSchema(a: Value, b: Value)
    requires !Same(a, b, "schema")
          || (Get(a, "state").Some? && Get(b, "state").Some?
              && !Same(Get(a, "state").value, Get(b, "state").value, "schema"))
    ensures !Compatible(a, b)
  {
    hide EachFound, Compatible, Get;
    CompatibleInWords(a, b);
  }

  /** A constant or a type of the state object. */
  lemma ChangedState(a: Value, b: Value, t: Value, t': Value, x: Value, y: Value, field: string)
    requires Get(a, "state") == Some(t) && Get(b, "state") == Some(t') && !Same(x, y, field)
    requires (EntryPair(t, t', "constant", "name", x, y) && field in ["name", "value"])
          || (EntryPair(t, t', "type", "name", x, y) && field in ["name", "layout"])
    ensures !Compatible(a, b)
  {
    hide EachFound, Compatible, Get, TextOf, Lists;
    CompatibleInWords(a, b);
    if Compatible(a, b) {
      if EntryPair(t, t', "constant", "name", x, y) && field in ["name", "value"] {
        TheEntryFound(t, t', "constant", Name, SameConstant, x, y);
      } else {
        TheEntryFound(t, t', "type", Name, SameType, x, y);
      }
    }
  }
}
