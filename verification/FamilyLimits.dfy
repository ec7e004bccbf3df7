/**
  A family's limit policies: the validator that ties them to the `LIMIT_` constants, and the
  tag-length-value block they are announced in.
*/
module FamilyLimits {
  import opened Common
  import opened Bytes
  import opened Registry

  datatype Constant = Constant(name: string, value: nat)

  datatype ValueType = Bits32 | Bits64

  datatype Limit = Limit(name: string, tag: nat, valueType: ValueType, required: bool, hardMin: nat, hardMax: nat)

  const PREFIX: string := "LIMIT_"

  predicate IsLimitName(name: string) { PREFIX <= name }

  function Stripped(name: string): string
    requires IsLimitName(name)
  {
    name[|PREFIX|..]
  }

  /** The limit constants by stripped name. */
  function LimitConstants(constants: seq<Constant>): map<string, nat> {
    if constants == [] then map[]
    else
      var init, last := LimitConstants(constants[..|constants| - 1]), constants[|constants| - 1];
      if IsLimitName(last.name) then init[Stripped(last.name) := last.value] else init
  }

  predicate LimitOk(m: map<string, nat>, l: Limit) {
    && ConstName(l.name) && l.name in m && l.tag != 0 && m[l.name] == l.tag
    && l.hardMin <= l.hardMax && l.hardMax != 0 && (l.valueType.Bits32? ==> l.hardMax < 0x1_0000_0000)
  }

  /** What the validator accepts. */
  predicate LimitsOk(m: map<string, nat>, limits: seq<Limit>, n: nat)
    requires n <= |limits|
  {
    && (forall i :: 0 <= i < n ==> LimitOk(m, limits[i]))
    && (forall i, j :: 0 <= i < j < n ==> limits[i].name != limits[j].name && limits[i].tag < limits[j].tag)
  }

  predicate PoliciesOk(limits: seq<Limit>, constants: seq<Constant>) {
    var m := LimitConstants(constants);
    |m| == |limits| && LimitsOk(m, limits, |limits|)
  }

  method ValidateLimits(limits: seq<Limit>, constants: seq<Constant>) returns (ok: bool)
    ensures ok <==> PoliciesOk(limits, constants)
  {
    hide ConstName, LimitConstants;
    var limitConstants := LimitConstants(constants);
    if |limitConstants| != |limits| {
      return false;
    }
    var names: set<string>, tags: set<nat> := {}, {};
    var i := 0;
    while i < |limits|
      invariant 0 <= i <= |limits| && LimitsOk(limitConstants, limits, i)
      invariant names == set k | 0 <= k < i :: limits[k].name
      invariant tags == set k | 0 <= k < i :: limits[k].tag
    {
      var l := limits[i];
      ok := ValidateConst(l.name);
      if !ok || l.name !in limitConstants {
        return false;
      }
      if l.tag == 0 || limitConstants[l.name] != l.tag || l.name in names || l.tag in tags
         || (i > 0 && limits[i - 1].tag >= l.tag) || l.hardMin > l.hardMax || l.hardMax == 0
         || (l.valueType.Bits32? && l.hardMax >= 0x1_0000_0000) {
        return false;
      }
      names, tags := names + {l.name}, tags + {l.tag};
      i := i + 1;
    }
    ok := true;
  }

  // ---------------------------------------------------------------------------------------
  // Limits and constants correspond one to one
  // ---------------------------------------------------------------------------------------

  predicate DistinctConstants(constants: seq<Constant>) {
    forall i, j :: 0 <= i < j < |constants| ==> constants[i].name != constants[j].name
  }

  method ValidateConstants(constants: seq<Constant>) returns (ok: bool)
    ensures ok <==> (forall i :: 0 <= i < |constants| ==> ConstName(constants[i].name)) && DistinctConstants(constants)
  {
    hide ConstName;
    var names: set<string> := {};
    var i := 0;
    while i < |constants|
      invariant 0 <= i <= |constants| && names == set k | 0 <= k < i :: constants[k].name
      invariant forall k :: 0 <= k < i ==> ConstName(constants[k].name)
      invariant forall a, b :: 0 <= a < b < i ==> constants[a].name != constants[b].name
    {
      ok := ValidateConst(constants[i].name);
      if !ok || constants[i].name in names {
        return false;
      }
      names := names + {constants[i].name};
      i := i + 1;
    }
    ok := true;
  }

  lemma StrippedIsInjective(a: string, b: string)
    ensures IsLimitName(a) && IsLimitName(b) && Stripped(a) == Stripped(b) ==> a == b
  {
    if IsLimitName(a) && IsLimitName(b) {
      assert a == PREFIX + Stripped(a) && b == PREFIX + Stripped(b);
    }
  }

  lemma {:induction false} ConstantsAreTheirs(constants: seq<Constant>, i: nat)
    requires i < |constants| && DistinctConstants(constants) && IsLimitName(constants[i].name)
    ensures Stripped(constants[i].name) in LimitConstants(constants)
    ensures LimitConstants(constants)[Stripped(constants[i].name)] == constants[i].value
    decreases |constants|
  {
    var init, last := constants[..|constants| - 1], constants[|constants| - 1];
    if i < |init| {
      ConstantsAreTheirs(init, i);
      StrippedIsInjective(last.name, constants[i].name);
    }
  }

  lemma {:induction false} NamesHaveConstants(constants: seq<Constant>, name: string) returns (i: nat)
    requires name in LimitConstants(constants)
    ensures i < |constants| && IsLimitName(constants[i].name) && Stripped(constants[i].name) == name
    decreases |constants|
  {
    var last := constants[|constants| - 1];
    if IsLimitName(last.name) && Stripped(last.name) == name {
      i := |constants| - 1;
    } else {
      i := NamesHaveConstants(constants[..|constants| - 1], name);
    }
  }

  /** As many distinct elements of a set as it has are all of it. */
  lemma {:induction false} Pigeonhole(names: seq<string>, all: set<string>)
    requires forall i, j :: 0 <= i < j < |names| ==> names[i] != names[j]
    requires forall i :: 0 <= i < |names| ==> names[i] in all
    ensures |names| <= |all|
    ensures |names| == |all| ==> forall x :: x in all ==> x in names
    decreases |names|
  {
    if names == [] {
      assert |all| == 0 ==> all == {};
    } else {
      var last := names[|names| - 1];
      var rest := names[..|names| - 1];
      Pigeonhole(rest, all - {last});
      assert |all - {last}| == |all| - 1;
      forall x | |names| == |all| && x in all ensures x in names {
        if x != last {
          assert x in all - {last};
          assert x in rest;
        }
      }
    }
  }

  predicate Matches(l: Limit, c: Constant) {
    IsLimitName(c.name) && Stripped(c.name) == l.name && c.value == l.tag
  }

  /** In an accepted family each limit has exactly one constant, with its name and tag. */
  lemma LimitHasOneConstant(limits: seq<Limit>, constants: seq<Constant>, i: nat) returns (k: nat)
    requires DistinctConstants(constants) && PoliciesOk(limits, constants) && i < |limits|
    ensures k < |constants| && Matches(limits[i], constants[k])
    ensures forall k': nat :: k' < |constants| && Matches(limits[i], constants[k']) ==> k' == k
  {
    hide ConstName, LimitConstants;
    assert LimitOk(LimitConstants(constants), limits[i]);
    k := NamesHaveConstants(constants, limits[i].name);
    ConstantsAreTheirs(constants, k);
    forall k': nat | k' < |constants| && Matches(limits[i], constants[k']) ensures k' == k {
      StrippedIsInjective(constants[k].name, constants[k'].name);
    }
  }

  /** And each `LIMIT_` constant has exactly one limit: there are as many limits as constants. */
  lemma ConstantHasOneLimit(limits: seq<Limit>, constants: seq<Constant>, k: nat) returns (i: nat)
    requires DistinctConstants(constants) && PoliciesOk(limits, constants)
    requires k < |constants| && IsLimitName(constants[k].name)
    ensures i < |limits| && Matches(limits[i], constants[k])
    ensures forall i': nat :: i' < |limits| && Matches(limits[i'], constants[k]) ==> i' == i
  {
    hide ConstName, LimitConstants;
    var m := LimitConstants(constants);
    ConstantsAreTheirs(constants, k);
    i := NameHasLimit(m, limits, Stripped(constants[k].name));
    assert LimitOk(m, limits[i]);
  }

  lemma NameHasLimit(m: map<string, nat>, limits: seq<Limit>, name: string) returns (i: nat)
    requires |m| == |limits| && LimitsOk(m, limits, |limits|) && name in m
    ensures i < |limits| && limits[i].name == name
  {
    hide LimitOk;
    var names := seq(|limits|, i requires 0 <= i < |limits| => limits[i].name);
    forall i | 0 <= i < |names| ensures names[i] in m.Keys {
      NamesAreKeys(m, limits[i]);
    }
    Pigeonhole(names, m.Keys);
    assert |m| == |m.Keys|;
    i :| 0 <= i < |names| && names[i] == name;
  }

  lemma NamesAreKeys(m: map<string, nat>, l: Limit)
    requires LimitOk(m, l)
    ensures l.name in m.Keys
  {
  }

  // ---------------------------------------------------------------------------------------
  // The announcement block
  // ---------------------------------------------------------------------------------------

  /** A decoded extension. */
  datatype Extension = Extension(tag: nat, required: bool, value: seq<Byte>)

  predicate LimitFits(l: Limit) { l.tag < 0x1_0000 && l.hardMax < 0x1_0000_0000_0000_0000 }

  /** The value bytes; a 32-bit limit is written through a narrowing cast. */
  function ValueBytes(l: Limit): (b: seq<Byte>)
    requires LimitFits(l)
    ensures |b| < 0x1_0000_0000
  {
    match l.valueType case Bits32 => U32(l.hardMax % 0x1_0000_0000) case Bits64 => U64(l.hardMax)
  }

  function WriteLimit(l: Limit): seq<Byte>
    requires LimitFits(l)
  {
    U16(l.tag) + (U16(0) + (U32(|ValueBytes(l)|) + ValueBytes(l)))
  }

  function WriteAll(limits: seq<Limit>): seq<Byte>
    requires forall i :: 0 <= i < |limits| ==> LimitFits(limits[i])
  {
    if limits == [] then [] else WriteLimit(limits[0]) + WriteAll(limits[1..])
  }

  method FamilyLimitExtensions(limits: seq<Limit>) returns (extensions: seq<Byte>)
    requires forall i :: 0 <= i < |limits| ==> LimitFits(limits[i])
    ensures extensions == WriteAll(limits)
  {
    hide U16, U32, U64, WriteLimit;
    extensions := [];
    var i := 0;
    assert limits[..0] == [];
    while i < |limits|
      invariant 0 <= i <= |limits| && extensions == WriteAll(limits[..i])
    {
      var l := limits[i];
      assert limits[..i + 1] == limits[..i] + [l];
      WriteAppend(limits[..i], l);
      LimitLayout(l, extensions);
      extensions := extensions + U16(l.tag);
      extensions := extensions + U16(0);
      match l.valueType {
        case Bits32 =>
          extensions := extensions + U32(4);
          extensions := extensions + U32(l.hardMax % 0x1_0000_0000);
        case Bits64 =>
          extensions := extensions + U32(8);
          extensions := extensions + U64(l.hardMax);
      }
      i := i + 1;
    }
    assert limits[..i] == limits;
  }

  lemma LimitLayout(l: Limit, before: seq<Byte>)
    requires LimitFits(l)
    ensures before + WriteLimit(l) ==
        before + U16(l.tag) + U16(0) + U32(if l.valueType.Bits32? then 4 else 8) + ValueBytes(l)
  {
    hide U16, U32, U64;
  }

  lemma {:induction false} WriteAppend(limits: seq<Limit>, l: Limit)
    requires LimitFits(l) && forall i :: 0 <= i < |limits| ==> LimitFits(limits[i])
    ensures WriteAll(limits + [l]) == WriteAll(limits) + WriteLimit(l)
    decreases |limits|
  {
    hide WriteLimit;
    if limits == [] {
      assert [l][1..] == [];
      assert WriteLimit(l) + [] == WriteLimit(l) && [] + WriteLimit(l) == WriteLimit(l);
    } else {
      assert (limits + [l])[1..] == limits[1..] + [l];
      WriteAppend(limits[1..], l);
    }
  }

  /** `decode_entries`: tags must rise, flags must be 0 or 1, and `room` entries are allowed. */
  function DecodeEntries(b: seq<Byte>, previous: Option<nat>, room: nat): Option<seq<Extension>>
    decreases |b|
  {
    if b == [] then Some([])
    else if room == 0 || |b| < 8 then None
    else
      var tag, flags, len := FromU16(b[..2]), FromU16(b[2..4]), FromU32(b[4..8]);
      if (previous.Some? && previous.value >= tag) || flags >= 2 || |b| < 8 + len then None
      else match DecodeEntries(b[8 + len..], Some(tag), room - 1)
        case None => None
        case Some(rest) => Some([Extension(tag, flags == 1, b[8..8 + len])] + rest)
  }

  function Announced(limits: seq<Limit>): seq<Extension>
    requires forall i :: 0 <= i < |limits| ==> LimitFits(limits[i])
  {
    seq(|limits|, i requires 0 <= i < |limits| => Extension(limits[i].tag, false, ValueBytes(limits[i])))
  }

  lemma FrontOfBlock(l: Limit, rest: seq<Byte>)
    requires LimitFits(l)
    ensures var b := WriteLimit(l) + rest;
      && |b| >= 8 && FromU16(b[..2]) == l.tag && FromU16(b[2..4]) == 0 && FromU32(b[4..8]) == |ValueBytes(l)|
      && |b| >= 8 + |ValueBytes(l)| && b[8..8 + |ValueBytes(l)|] == ValueBytes(l) && b[8 + |ValueBytes(l)|..] == rest
  {
    U16RoundTrip(l.tag);
    U16RoundTrip(0);
    U32RoundTrip(|ValueBytes(l)|);
    assert |U16(l.tag)| == 2 && |U16(0)| == 2;
    hide U16, U32, FromU16, FromU32, ValueBytes;
    var b, v := WriteLimit(l) + rest, ValueBytes(l);
    assert b == U16(l.tag) + U16(0) + U32(|v|) + v + rest;
    assert b[..2] == U16(l.tag) && b[2..4] == U16(0) && b[4..8] == U32(|v|);
    assert b[8..8 + |v|] == v && b[8 + |v|..] == rest;
  }

  /**
    The block written from limits with rising tags decodes to one optional extension per limit,
    in order, exactly when there are no more limits than the transport allows entries.
   */
  lemma {:induction false} BlockDecodes(limits: seq<Limit>, previous: Option<nat>, room: nat)
    requires forall i :: 0 <= i < |limits| ==>
        LimitFits(limits[i]) && (previous.Some? ==> previous.value < limits[i].tag)
    requires forall i, j :: 0 <= i < j < |limits| ==> limits[i].tag < limits[j].tag
    ensures DecodeEntries(WriteAll(limits), previous, room)
         == if |limits| <= room then Some(Announced(limits)) else None
    decreases |limits|
  {
    hide DecodeEntries, WriteLimit, ValueBytes;
    if limits == [] {
      NoEntries(previous, room);
    } else {
      var l, rest := limits[0], limits[1..];
      DecodeFront(l, WriteAll(rest), previous, room);
      if room > 0 {
        BlockDecodes(rest, Some(l.tag), room - 1);
        if |limits| <= room {
          assert Announced(limits) == [Extension(l.tag, false, ValueBytes(l))] + Announced(rest);
        }
      }
    }
  }

  lemma NoEntries(previous: Option<nat>, room: nat)
    ensures DecodeEntries([], previous, room) == Some([])
  {
  }

  lemma DecodeFront(l: Limit, rest: seq<Byte>, previous: Option<nat>, room: nat)
    requires LimitFits(l) && (previous.Some? ==> previous.value < l.tag)
    ensures DecodeEntries(WriteLimit(l) + rest, previous, room)
         == if room == 0 then None else match DecodeEntries(rest, Some(l.tag), room - 1)
              case None => None
              case Some(es) => Some([Extension(l.tag, false, ValueBytes(l))] + es)
  {
    hide WriteLimit, FromU16, FromU32, ValueBytes;
    FrontOfBlock(l, rest);
  }

  /** Reading a limit back: the extension's value at its declared width. */
  function ReadLimit(l: Limit, e: Extension): Option<nat> {
    match l.valueType
    case Bits32 => if |e.value| == 4 then Some(FromU32(e.value)) else None
    case Bits64 => if |e.value| == 8 then Some(FromU64(e.value)) else None
  }

  lemma ValueReadsBack(l: Limit)
    requires LimitFits(l) && (l.valueType.Bits32? ==> l.hardMax < 0x1_0000_0000)
    ensures ReadLimit(l, Extension(l.tag, false, ValueBytes(l))) == Some(l.hardMax)
  {
    hide U32, U64, FromU32, FromU64;
    match l.valueType
    case Bits32 =>
      assert l.hardMax % 0x1_0000_0000 == l.hardMax;
      U32RoundTrip(l.hardMax);
    case Bits64 => U64RoundTrip(l.hardMax);
  }

  /** For an accepted family nothing is truncated: every announced limit reads back as its hard maximum. */
  lemma AcceptedLimitsReadBack(limits: seq<Limit>, constants: seq<Constant>, room: nat, i: nat)
    requires PoliciesOk(limits, constants) && (forall k :: 0 <= k < |limits| ==> LimitFits(limits[k]))
    requires |limits| <= room && i < |limits|
    ensures var decoded := DecodeEntries(WriteAll(limits), None, room);
      && decoded.Some? && |decoded.value| == |limits|
      && decoded.value[i].tag == limits[i].tag && ReadLimit(limits[i], decoded.value[i]) == Some(limits[i].hardMax)
  {
    hide DecodeEntries, WriteAll, ReadLimit, ValueBytes, LimitConstants, ConstName;
    BlockDecodes(limits, None, room);
    assert LimitOk(LimitConstants(constants), limits[i]);
    ValueReadsBack(limits[i]);
  }

  /** Without the validator's bound the narrowing cast would lose the value. */
  lemma UnboundedLimitIsTruncated(l: Limit)
    requires LimitFits(l) && l.valueType.Bits32?
    ensures ReadLimit(l, Extension(l.tag, false, ValueBytes(l))) == Some(l.hardMax) <==> l.hardMax < 0x1_0000_0000
  {
    U32RoundTrip(l.hardMax % 0x1_0000_0000);
    hide U32, FromU32;
  }

  // ---------------------------------------------------------------------------------------
  // In bytes and names
  // ---------------------------------------------------------------------------------------

  /** An announced limit: tag, no flags, the width of the value, the value. */
  lemma LimitBytes(l: Limit)
    requires LimitFits(l)
    ensures l.valueType.Bits32? && l.hardMax < 0x1_0000_0000 ==>
      WriteLimit(l) == Le(l.tag, 2) + [0, 0] + [4, 0, 0, 0] + Le(l.hardMax, 4)
    ensures l.valueType.Bits64? ==> WriteLimit(l) == Le(l.tag, 2) + [0, 0] + [8, 0, 0, 0] + Le(l.hardMax, 8)
  {
    Widths();
    hide U16, U32, U64, Le;
    LittleEndian(l.tag);
    LittleEndian(l.hardMax);
    assert l.hardMax < 0x1_0000_0000 ==> l.hardMax % 0x1_0000_0000 == l.hardMax;
  }

  lemma Widths()
    ensures U16(0) == [0, 0] && U32(4) == [4, 0, 0, 0] && U32(8) == [8, 0, 0, 0]
  {
  }

  /** Extensions as they are written: tag, 1 if required, the length of the value, the value. */
  function ExtensionBytes(es: seq<Extension>): seq<Byte> {
    if es == [] then [] else OneExtension(es[0], ExtensionBytes(es[1..]))
  }

  predicate ExtensionFits(e: Extension) { e.tag < 0x1_0000 && |e.value| < 0x1_0000_0000 }

  /** Tags rise, from above `previous` on. */
  predicate Rising(es: seq<Extension>, previous: Option<nat>) {
    && (forall i :: 0 <= i < |es| ==> ExtensionFits(es[i]) && (previous.Some? ==> previous.value < es[i].tag))
    && (forall i, j :: 0 <= i < j < |es| ==> es[i].tag < es[j].tag)
  }

  /** One extension and what follows it. */
  function OneExtension(e: Extension, rest: seq<Byte>): seq<Byte> {
    Le(e.tag, 2) + (if e.required then [1, 0] else [0, 0]) + Le(|e.value|, 4) + e.value + rest
  }

  /** What the decoder finds in the eight bytes before a value, and behind them. */
  predicate StandsInFront(b: seq<Byte>, e: Extension, rest: seq<Byte>) {
    && |b| >= 8 + |e.value| && FromU16(b[..2]) == e.tag && FromU16(b[2..4]) == (if e.required then 1 else 0)
    && FromU32(b[4..8]) == |e.value| && b[8..8 + |e.value|] == e.value && b[8 + |e.value|..] == rest
  }

  lemma InU16(e: Extension, rest: seq<Byte>)
    requires ExtensionFits(e)
    ensures OneExtension(e, rest) == U16(e.tag) + U16(if e.required then 1 else 0) + U32(|e.value|) + e.value + rest
    ensures |U16(e.tag)| == 2 && |U16(if e.required then 1 else 0)| == 2
  {
    hide Le, U32;
    LittleEndian(e.tag);
    LittleEndian(|e.value|);
  }

  lemma FrontOfWritten(e: Extension, rest: seq<Byte>)
    requires ExtensionFits(e)
    ensures StandsInFront(OneExtension(e, rest), e, rest)
  {
    hide U16, U32, FromU16, FromU32, OneExtension;
    InU16(e, rest);
    var b := OneExtension(e, rest);
    var tag, flags, len := U16(e.tag), U16(if e.required then 1 else 0), U32(|e.value|);
    U16RoundTrip(e.tag);
    U16RoundTrip(if e.required then 1 else 0);
    U32RoundTrip(|e.value|);
    assert b[..2] == tag && b[2..4] == flags && b[4..8] == len;
    assert b[8..8 + |e.value|] == e.value && b[8 + |e.value|..] == rest;
  }

  lemma WrittenOfFront(b: seq<Byte>, e: Extension, rest: seq<Byte>)
    requires ExtensionFits(e) && StandsInFront(b, e, rest)
    ensures b == OneExtension(e, rest)
  {
    hide U16, U32, FromU16, FromU32, OneExtension;
    InU16(e, rest);
    U16Inverse(b[..2]);
    U16Inverse(b[2..4]);
    U32Inverse(b[4..8]);
    assert b == b[..2] + b[2..4] + b[4..8] + b[8..8 + |e.value|] + b[8 + |e.value|..];
  }

  /** The decoder takes one extension at a time. */
  lemma DecodeOne(b: seq<Byte>, e: Extension, rest: seq<Byte>, previous: Option<nat>, room: nat)
    requires StandsInFront(b, e, rest) && room > 0 && (previous.Some? ==> previous.value < e.tag)
    ensures DecodeEntries(b, previous, room)
         == match DecodeEntries(rest, Some(e.tag), room - 1) case None => None case Some(es) => Some([e] + es)
  {
    hide FromU16, FromU32;
  }

  lemma DecodedOne(b: seq<Byte>, previous: Option<nat>, room: nat, es: seq<Extension>)
    requires DecodeEntries(b, previous, room) == Some(es) && b != []
    ensures room > 0 && es != [] && |b| >= 8 && |b| >= 8 + |es[0].value|
    ensures var rest := b[8 + |es[0].value|..];
      && StandsInFront(b, es[0], rest) && ExtensionFits(es[0])
      && (previous.Some? ==> previous.value < es[0].tag)
      && DecodeEntries(rest, Some(es[0].tag), room - 1) == Some(es[1..])
  {
    hide FromU16, FromU32;
  }

  /** Decoding accepts exactly the written extensions with rising tags, no more than there is room for. */
  lemma EntriesDecodeExactly(b: seq<Byte>, previous: Option<nat>, room: nat, es: seq<Extension>)
    ensures DecodeEntries(b, previous, room) == Some(es) <==>
      |es| <= room && Rising(es, previous) && b == ExtensionBytes(es)
  {
    hide DecodeEntries, ExtensionBytes, Rising;
    if DecodeEntries(b, previous, room) == Some(es) {
      WrittenFromDecoded(b, previous, room, es);
    }
    if |es| <= room && Rising(es, previous) && b == ExtensionBytes(es) {
      DecodedFromWritten(previous, room, es);
    }
  }

  lemma RisingStep(es: seq<Extension>, previous: Option<nat>)
    requires es != []
    ensures Rising(es, previous) <==>
      && ExtensionFits(es[0]) && (previous.Some? ==> previous.value < es[0].tag) && Rising(es[1..], Some(es[0].tag))
  {
    hide ExtensionFits;
    var rest := es[1..];
    assert forall i :: 0 <= i < |rest| ==> rest[i] == es[i + 1];
    if Rising(rest, Some(es[0].tag)) {
      assert forall i :: 0 < i < |es| ==> es[i] == rest[i - 1];
    }
  }

  lemma {:induction false} WrittenFromDecoded(b: seq<Byte>, previous: Option<nat>, room: nat, es: seq<Extension>)
    requires DecodeEntries(b, previous, room) == Some(es)
    ensures |es| <= room && Rising(es, previous) && b == ExtensionBytes(es)
    decreases |b|
  {
    hide OneExtension, DecodeEntries, StandsInFront, Rising;
    if b == [] {
      NoEntries(previous, room);
      NothingRises(previous);
    } else {
      DecodedOne(b, previous, room, es);
      var e, rest := es[0], b[8 + |es[0].value|..];
      WrittenFromDecoded(rest, Some(e.tag), room - 1, es[1..]);
      RisingStep(es, previous);
      WrittenOfFront(b, e, rest);
    }
  }

  lemma NothingRises(previous: Option<nat>)
    ensures Rising([], previous)
  {
  }

  lemma {:induction false} DecodedFromWritten(previous: Option<nat>, room: nat, es: seq<Extension>)
    requires |es| <= room && Rising(es, previous)
    ensures DecodeEntries(ExtensionBytes(es), previous, room) == Some(es)
    decreases |es|
  {
    hide OneExtension, DecodeEntries, StandsInFront, Rising;
    if es == [] {
      NoEntries(previous, room);
    } else {
      var e, rest := es[0], ExtensionBytes(es[1..]);
      RisingStep(es, previous);
      DecodedFromWritten(Some(e.tag), room - 1, es[1..]);
      FrontOfWritten(e, rest);
      DecodeOne(ExtensionBytes(es), e, rest, previous, room);
      assert [e] + es[1..] == es;
    }
  }

  /** A policy that can be announced, whatever the constants. */
  predicate PolicyFormed(l: Limit) {
    && ConstName(l.name) && l.tag != 0 && l.hardMin <= l.hardMax && l.hardMax != 0
    && (l.valueType.Bits32? ==> l.hardMax <= 4_294_967_295)
  }

  predicate Declared(l: Limit, constants: seq<Constant>) {
    exists k :: 0 <= k < |constants| && constants[k] == Constant("LIMIT_" + l.name, l.tag)
  }

  predicate Used(c: Constant, limits: seq<Limit>) {
    exists i :: 0 <= i < |limits| && c.name == "LIMIT_" + limits[i].name
  }

  /** Well-formed policies of different names and rising tags, one for one with the limit constants. */
  predicate OneForOne(limits: seq<Limit>, constants: seq<Constant>) {
    && (forall i :: 0 <= i < |limits| ==> PolicyFormed(limits[i]) && Declared(limits[i], constants))
    && (forall i, j :: 0 <= i < j < |limits| ==> limits[i].name != limits[j].name && limits[i].tag < limits[j].tag)
    && (forall k :: 0 <= k < |constants| && "LIMIT_" <= constants[k].name ==> Used(constants[k], limits))
  }

  lemma Prefixed(name: string)
    ensures IsLimitName("LIMIT_" + name) && Stripped("LIMIT_" + name) == name
  {
  }

  lemma Unprefixed(name: string)
    requires IsLimitName(name)
    ensures name == "LIMIT_" + Stripped(name)
  {
  }

  lemma DeclaredIsOk(l: Limit, constants: seq<Constant>)
    requires DistinctConstants(constants) && PolicyFormed(l) && Declared(l, constants)
    ensures LimitOk(LimitConstants(constants), l)
  {
    hide LimitConstants, ConstName, IsLimitName, Stripped;
    var k :| 0 <= k < |constants| && constants[k] == Constant("LIMIT_" + l.name, l.tag);
    Prefixed(l.name);
    ConstantsAreTheirs(constants, k);
  }

  /** Distinct names that are all the keys there are. */
  lemma {:induction false} CountOfNames(names: seq<string>, all: set<string>)
    requires forall i, j :: 0 <= i < j < |names| ==> names[i] != names[j]
    requires forall x :: x in all <==> x in names
    ensures |all| == |names|
    decreases |names|
  {
    if names == [] {
      assert all == {};
    } else {
      var last, rest := names[|names| - 1], names[..|names| - 1];
      assert names == rest + [last];
      CountOfNames(rest, all - {last});
      assert |all - {last}| == |all| - 1;
    }
  }

  lemma SameCount(limits: seq<Limit>, constants: seq<Constant>)
    requires DistinctConstants(constants) && OneForOne(limits, constants)
    ensures |LimitConstants(constants)| == |limits|
  {
    hide LimitConstants, PolicyFormed, IsLimitName, Stripped;
    var m := LimitConstants(constants);
    var names := seq(|limits|, i requires 0 <= i < |limits| => limits[i].name);
    forall i: nat | i < |limits| ensures names[i] in m.Keys {
      DeclaredIsOk(limits[i], constants);
      NamesAreKeys(m, limits[i]);
    }
    forall x | x in m.Keys ensures x in names {
      var k := NamesHaveConstants(constants, x);
      Unprefixed(constants[k].name);
      assert Used(constants[k], limits);
      var i :| 0 <= i < |limits| && constants[k].name == "LIMIT_" + limits[i].name;
      Prefixed(limits[i].name);
      assert names[i] == x;
    }
    CountOfNames(names, m.Keys);
    assert |m| == |m.Keys|;
  }

  /** Of distinct constants the validator accepts exactly the policies that match them one for one. */
  lemma AcceptedPoliciesInWords(limits: seq<Limit>, constants: seq<Constant>)
    requires DistinctConstants(constants)
    ensures PoliciesOk(limits, constants) <==> OneForOne(limits, constants)
  {
    hide LimitConstants, ConstName, IsLimitName, Stripped;
    if PoliciesOk(limits, constants) {
      forall i: nat | i < |limits| ensures PolicyFormed(limits[i]) && Declared(limits[i], constants) {
        assert LimitOk(LimitConstants(constants), limits[i]);
        var k := LimitHasOneConstant(limits, constants, i);
        Unprefixed(constants[k].name);
        assert constants[k] == Constant("LIMIT_" + limits[i].name, limits[i].tag);
      }
      forall k: nat | k < |constants| && "LIMIT_" <= constants[k].name ensures Used(constants[k], limits) {
        PrefixIs(constants[k].name);
        var i := ConstantHasOneLimit(limits, constants, k);
        Unprefixed(constants[k].name);
      }
    }
    if OneForOne(limits, constants) {
      SameCount(limits, constants);
      forall i: nat | i < |limits| ensures LimitOk(LimitConstants(constants), limits[i]) {
        DeclaredIsOk(limits[i], constants);
      }
    }
  }

  lemma PrefixIs(name: string)
    ensures IsLimitName(name) <==> "LIMIT_" <= name
  {
  }
}
