/**
  The generated frame header codec, in its Rust and its TypeScript form, over any transport
  record the schema validator accepts.
*/
module FrameHeader {
  import opened Common
  import opened Bytes

  datatype HeaderError = Truncated | InvalidClass | ReservedMeta | RequestIdPresence | ZeroRequestId

  datatype Result<+T> = Ok(value: T) | Err(error: HeaderError)

  /** The part of a transport record the header codec is generated from. */
  datatype Transport = Transport(
    eventHeaderBytes: nat, correlatedHeaderBytes: nat,
    familyBits: nat, kindBits: nat, metaBits: nat, requestIdBits: nat,
    classEvent: bv8, classRequest: bv8, classResult: bv8, classMask: bv8,
    compressed: bv8, sensitive: bv8, reservedMask: bv8)

  datatype Header = Header(family: nat, kind: nat, class_: bv8,
      requestId: Option<nat>, compressed: bool, sensitive: bool)

  /** The ranges of the Rust fields. */
  predicate Typed(h: Header) {
    h.family < 0x1_0000 && h.kind < 0x1_0000 && (h.requestId.Some? ==> h.requestId.value < 0x1_0000_0000)
  }

  function CountOnes(b: bv8): bv8 {
    (b & 1) + ((b >> 1) & 1) + ((b >> 2) & 1) + ((b >> 3) & 1)
    + ((b >> 4) & 1) + ((b >> 5) & 1) + ((b >> 6) & 1) + ((b >> 7) & 1)
  }

  /** What the validator demands of the header fields. */
  predicate Accepted(t: Transport) {
    && t.eventHeaderBytes == 5 && t.correlatedHeaderBytes == 9
    && t.familyBits == 16 && t.kindBits == 16 && t.metaBits == 8 && t.requestIdBits == 32
    && t.classEvent == 0 && t.classRequest == 1 && t.classResult == 2 && t.classMask == 3
    && t.compressed & t.classMask == 0 && t.sensitive & t.classMask == 0
    && CountOnes(t.compressed) == 1 && CountOnes(t.sensitive) == 1 && t.compressed & t.sensitive == 0
    && t.reservedMask & (t.classMask | t.compressed | t.sensitive) == 0
    && t.classMask | t.compressed | t.sensitive | t.reservedMask == 0xFF
  }

  // ---------------------------------------------------------------------------------------
  // Bytes and their bits
  // ---------------------------------------------------------------------------------------

  function ToByte(b: bv8): Byte { b as int }

  function ToBits(x: Byte): bv8 { x as bv8 }

  lemma BitsOfByte(b: bv8)
    ensures ToBits(ToByte(b)) == b
  {
  }

  lemma NextByte(b: bv8)
    ensures b != 0xFF ==> ToByte(b + 1) == ToByte(b) + 1
    ensures b == 0xFF ==> ToByte(b) == 0xFF
  {
  }

  lemma {:induction false} EveryByte(x: Byte) returns (b: bv8)
    ensures ToByte(b) == x
  {
    if x == 0 {
      b := 0;
    } else {
      var below := EveryByte(x - 1);
      NextByte(below);
      b := below + 1;
    }
  }

  lemma ByteOfBits(x: Byte)
    ensures ToByte(ToBits(x)) == x
  {
    var b := EveryByte(x);
    BitsOfByte(b);
    hide ToByte, ToBits;
  }

  // ---------------------------------------------------------------------------------------
  // The meta byte
  // ---------------------------------------------------------------------------------------

  function Meta(t: Transport, h: Header): bv8 {
    h.class_ | (if h.compressed then t.compressed else 0) | (if h.sensitive then t.sensitive else 0)
  }

  /** Class and flags can be read back from the byte they were packed into. */
  lemma MetaRoundTrip(t: Transport, h: Header)
    requires Accepted(t) && h.class_ <= 2
    ensures var m := Meta(t, h);
      && m & t.reservedMask == 0 && m & t.classMask == h.class_
      && (m & t.compressed != 0 <==> h.compressed) && (m & t.sensitive != 0 <==> h.sensitive)
  {
    OneBit(t.compressed);
    OneBit(t.sensitive);
    hide CountOnes;
    var c, s := if h.compressed then t.compressed else 0, if h.sensitive then t.sensitive else 0;
    MetaBits(h.class_, c, s, t.compressed, t.sensitive, t.reservedMask);
  }

  lemma MetaBits(class_: bv8, c: bv8, s: bv8, compressed: bv8, sensitive: bv8, reserved: bv8)
    requires class_ <= 2 && (c == 0 || c == compressed) && (s == 0 || s == sensitive)
    requires compressed & 3 == 0 && sensitive & 3 == 0 && compressed & sensitive == 0
    requires reserved & (3 | compressed | sensitive) == 0
    ensures var m := class_ | c | s;
      m & reserved == 0 && m & 3 == class_ && m & compressed == c && m & sensitive == s
  {
  }

  lemma OneBit(b: bv8)
    requires CountOnes(b) == 1
    ensures b in {1, 2, 4, 8, 16, 32, 64, 128}
  {
  }

  /** A byte without reserved bits is the packing of what is read from it. */
  lemma MetaInverse(t: Transport, m: bv8)
    requires Accepted(t) && m & t.reservedMask == 0
    ensures m == (m & t.classMask) | (if m & t.compressed != 0 then t.compressed else 0)
        | (if m & t.sensitive != 0 then t.sensitive else 0)
  {
    OneBit(t.compressed);
    OneBit(t.sensitive);
    hide CountOnes;
    BitIsAllOrNothing(m, t.compressed);
    BitIsAllOrNothing(m, t.sensitive);
    MaskParts(m, t.compressed, t.sensitive, t.reservedMask);
  }

  lemma BitIsAllOrNothing(m: bv8, b: bv8)
    requires b in {1, 2, 4, 8, 16, 32, 64, 128}
    ensures m & b == 0 || m & b == b
  {
  }

  lemma MaskParts(m: bv8, c: bv8, s: bv8, reserved: bv8)
    requires m & reserved == 0 && 3 | c | s | reserved == 0xFF
    ensures m == (m & 3) | (m & c) | (m & s)
  {
  }

  // ---------------------------------------------------------------------------------------
  // The Rust form
  // ---------------------------------------------------------------------------------------

  /** The nine-byte buffer and how much of it is used. */
  function Encode(t: Transport, h: Header): Result<(seq<Byte>, nat)>
    requires Typed(h)
  {
    var event := h.class_ == t.classEvent;
    if !event && h.class_ != t.classRequest && h.class_ != t.classResult then Err(InvalidClass)
    else if event != h.requestId.None? then Err(RequestIdPresence)
    else if h.requestId == Some(0) then Err(ZeroRequestId)
    else
      var tail := if h.requestId.Some? then U32(h.requestId.value) else [0, 0, 0, 0];
      Ok((Front(t, h) + tail, if event then t.eventHeaderBytes else t.correlatedHeaderBytes))
  }

  /** The five bytes every header starts with. */
  function Front(t: Transport, h: Header): (b: seq<Byte>)
    requires Typed(h)
    ensures |b| == 5
  {
    U16(h.family) + U16(h.kind) + [ToByte(Meta(t, h))]
  }

  function Decode(t: Transport, input: seq<Byte>): Result<(Header, nat)>
    requires t.eventHeaderBytes >= 5 && t.correlatedHeaderBytes >= 9
  {
    if |input| < t.eventHeaderBytes then Err(Truncated)
    else
      var meta := ToBits(input[4]);
      if meta & t.reservedMask != 0 then Err(ReservedMeta)
      else
        var class_ := meta & t.classMask;
        var correlated := class_ == t.classRequest || class_ == t.classResult;
        if class_ != t.classEvent && !correlated then Err(InvalidClass)
        else
          var len := if correlated then t.correlatedHeaderBytes else t.eventHeaderBytes;
          if |input| < len then Err(Truncated)
          else
            var id := if correlated then Some(FromU32(input[5..9])) else None;
            if id == Some(0) then Err(ZeroRequestId)
            else
              Ok((Header(FromU16(input[..2]), FromU16(input[2..4]), class_, id,
                         meta & t.compressed != 0, meta & t.sensitive != 0), len))
  }

  /** The headers that exist: a known class, and a nonzero request id exactly when correlated. */
  predicate Legal(h: Header) {
    Typed(h) && h.class_ <= 2 && (h.class_ == 0 <==> h.requestId.None?) && h.requestId != Some(0)
  }

  predicate Shape(t: Transport) {
    && t.eventHeaderBytes == 5 && t.correlatedHeaderBytes == 9
    && t.classEvent == 0 && t.classRequest == 1 && t.classResult == 2
  }

  lemma AcceptedShape(t: Transport)
    requires Accepted(t)
    ensures Shape(t)
  {
  }

  lemma SmallClass(c: bv8)
    ensures c <= 2 <==> c == 0 || c == 1 || c == 2
  {
  }

  lemma EncodesExactlyLegal(t: Transport, h: Header)
    requires Accepted(t) && Typed(h)
    ensures Encode(t, h).Ok? <==> Legal(h)
  {
    AcceptedShape(t);
    SmallClass(h.class_);
    hide Accepted, Front;
  }

  /** The header part of what was written, whatever follows it. */
  function Wire(t: Transport, h: Header, payload: seq<Byte>): seq<Byte>
    requires Legal(h)
  {
    Front(t, h) + (if h.requestId.Some? then U32(h.requestId.value) else []) + payload
  }

  lemma EncodedIsWire(t: Transport, h: Header, payload: seq<Byte>)
    requires Shape(t) && Legal(h)
    ensures Encode(t, h).Ok? && Encode(t, h).value.1 == (if h.class_ == 0 then 5 else 9) <= |Encode(t, h).value.0|
    ensures var (out, n) := Encode(t, h).value; out[..n] + payload == Wire(t, h, payload)
  {
    SmallClass(h.class_);
    hide Front, U32;
    var (out, n) := Encode(t, h).value;
    if h.requestId.Some? {
      assert out[..n] == out;
    } else {
      assert out[..n] == Front(t, h);
    }
  }

  /** Where the fields stand. */
  lemma WireFields(t: Transport, h: Header, payload: seq<Byte>)
    requires Legal(h)
    ensures var w := Wire(t, h, payload);
      && |w| >= 5 && w[..2] == U16(h.family) && w[2..4] == U16(h.kind) && w[4] == ToByte(Meta(t, h))
      && (h.requestId.Some? ==> |w| >= 9 && w[5..9] == U32(h.requestId.value))
  {
    assert |U16(h.family)| == 2 && |U16(h.kind)| == 2;
    hide U16, U32, Meta, ToByte;
  }

  lemma DecodeWire(t: Transport, h: Header, payload: seq<Byte>)
    requires Accepted(t) && Legal(h)
    ensures t.eventHeaderBytes >= 5 && t.correlatedHeaderBytes >= 9
    ensures Decode(t, Wire(t, h, payload)) == Ok((h, if h.class_ == 0 then 5 else 9))
  {
    AcceptedShape(t);
    MetaRoundTrip(t, h);
    SmallClass(h.class_);
    hide Accepted, Meta, U16, FromU16, U32, FromU32, ToByte, ToBits, Wire;
    WireFields(t, h, payload);
    BitsOfByte(Meta(t, h));
    U16RoundTrip(h.family);
    U16RoundTrip(h.kind);
    if h.requestId.Some? {
      U32RoundTrip(h.requestId.value);
    }
  }

  /** Decoding an encoded header, whatever follows it, gives the header and its length. */
  lemma DecodeEncode(t: Transport, h: Header, payload: seq<Byte>)
    requires Accepted(t) && Legal(h)
    ensures t.eventHeaderBytes >= 5 && t.correlatedHeaderBytes >= 9 && Encode(t, h).Ok?
    ensures var (out, n) := Encode(t, h).value; n <= |out| && Decode(t, out[..n] + payload) == Ok((h, n))
  {
    AcceptedShape(t);
    hide Accepted, Encode, Decode, Wire;
    EncodedIsWire(t, h, payload);
    DecodeWire(t, h, payload);
  }

  lemma DecodedFields(t: Transport, input: seq<Byte>)
    requires Accepted(t) && t.eventHeaderBytes >= 5 && t.correlatedHeaderBytes >= 9 && Decode(t, input).Ok?
    ensures var (h, n) := Decode(t, input).value;
      && Legal(h) && n == (if h.class_ == 0 then 5 else 9) <= |input|
      && h.family == FromU16(input[..2]) && h.kind == FromU16(input[2..4]) && Meta(t, h) == ToBits(input[4])
      && (h.requestId.Some? ==> h.requestId.value == FromU32(input[5..9]))
  {
    AcceptedShape(t);
    hide FromU16, FromU32, ToBits;
    MetaInverse(t, ToBits(input[4]));
    hide Accepted;
    SmallClass(ToBits(input[4]) & t.classMask);
  }

  /** Re-encoding an accepted header reproduces the bytes it consumed. */
  lemma EncodeDecode(t: Transport, input: seq<Byte>)
    requires Accepted(t) && Decode(t, input).Ok?
    ensures var (h, n) := Decode(t, input).value;
      && Legal(h) && n <= |input| && Encode(t, h).Ok?
      && Encode(t, h).value.1 == n <= |Encode(t, h).value.0| && Encode(t, h).value.0[..n] == input[..n]
  {
    hide Accepted, Meta, U16, FromU16, U32, FromU32, ToByte, ToBits, Decode, Encode;
    AcceptedShape(t);
    DecodedFields(t, input);
    var (h, n) := Decode(t, input).value;
    EncodedIsWire(t, h, []);
    U16Inverse(input[..2]);
    U16Inverse(input[2..4]);
    ByteOfBits(input[4]);
    if h.requestId.Some? {
      U32Inverse(input[5..9]);
      assert input[..9] == input[..2] + input[2..4] + [input[4]] + input[5..9];
    } else {
      assert input[..5] == input[..2] + input[2..4] + [input[4]];
    }
    var out := Encode(t, h).value.0;
    assert out[..n] + [] == out[..n];
  }

  // ---------------------------------------------------------------------------------------
  // In bytes
  // ---------------------------------------------------------------------------------------

  /** A header is its family, its kind and its meta byte, then the request id if it has one. */
  lemma HeaderLayout(t: Transport, h: Header)
    requires Accepted(t) && Legal(h)
    ensures Encode(t, h).Ok? && Encode(t, h).value.1 <= |Encode(t, h).value.0|
    ensures var (out, n) := Encode(t, h).value;
      && n == (if h.class_ == 0 then 5 else 9)
      && out[..n] == Le(h.family, 2) + Le(h.kind, 2) + [ToByte(Meta(t, h))]
                     + if h.requestId.Some? then Le(h.requestId.value, 4) else []
  {
    hide Accepted, Encode, U16, U32, Le, Meta, ToByte;
    AcceptedShape(t);
    EncodedIsWire(t, h, []);
    var (out, n) := Encode(t, h).value;
    assert out[..n] + [] == out[..n];
    LittleEndian(h.family);
    LittleEndian(h.kind);
    if h.requestId.Some? {
      LittleEndian(h.requestId.value);
    }
    assert Wire(t, h, []) == Front(t, h) + if h.requestId.Some? then U32(h.requestId.value) else [];
  }

  /** Why a header is refused. */
  lemma EncodeErrors(t: Transport, h: Header)
    requires Accepted(t) && Typed(h)
    ensures Encode(t, h) == Err(InvalidClass) <==> h.class_ > 2
    ensures Encode(t, h) == Err(RequestIdPresence) <==> h.class_ <= 2 && (h.class_ == 0 <==> h.requestId.Some?)
    ensures Encode(t, h) == Err(ZeroRequestId) <==> (h.class_ == 1 || h.class_ == 2) && h.requestId == Some(0)
    ensures Encode(t, h) != Err(Truncated) && Encode(t, h) != Err(ReservedMeta)
  {
    AcceptedShape(t);
    SmallClass(h.class_);
    hide Accepted, Front;
  }

  /** The class in the two lowest bits of the meta byte calls for a request id. */
  predicate Correlated(meta: bv8) { meta & 3 == 1 || meta & 3 == 2 }

  /** Why bytes are refused. */
  lemma DecodeErrors(t: Transport, input: seq<Byte>)
    requires Accepted(t)
    ensures |input| < 5 ==> Decode(t, input) == Err(Truncated)
    ensures |input| >= 5 ==> var meta := ToBits(input[4]);
      && (Decode(t, input) == Err(ReservedMeta) <==> meta & t.reservedMask != 0)
      && (Decode(t, input) == Err(InvalidClass) <==> meta & t.reservedMask == 0 && meta & 3 == 3)
      && (Decode(t, input) == Err(Truncated) <==> meta & t.reservedMask == 0 && Correlated(meta) && |input| < 9)
      && (Decode(t, input) == Err(ZeroRequestId) <==>
            meta & t.reservedMask == 0 && Correlated(meta) && |input| >= 9 && input[5..9] == [0, 0, 0, 0])
      && Decode(t, input) != Err(RequestIdPresence)
  {
    AcceptedMask(t);
    hide Accepted, FromU16, FromU32, ToBits;
    if |input| >= 5 {
      FourClasses(ToBits(input[4]));
      if |input| >= 9 {
        ZeroIsZeros(input[5..9]);
      }
    }
  }

  lemma AcceptedMask(t: Transport)
    requires Accepted(t)
    ensures Shape(t) && t.classMask == 3
  {
  }

  lemma FourClasses(meta: bv8)
    ensures meta & 3 == 0 || meta & 3 == 1 || meta & 3 == 2 || meta & 3 == 3
  {
  }

  lemma ZeroIsZeros(b: seq<Byte>)
    requires |b| == 4
    ensures FromU32(b) == 0 <==> b == [0, 0, 0, 0]
  {
  }

  // ---------------------------------------------------------------------------------------
  // The TypeScript form
  // ---------------------------------------------------------------------------------------

  /** A header of plain numbers, which nothing keeps in range. */
  datatype TsHeader = TsHeader(family: int, kind: int, class_: int,
      requestId: Option<int>, compressed: bool, sensitive: bool)

  /** The numbers a Rust header can hold. */
  predicate Ranged(h: TsHeader) {
    && 0 <= h.family < 0x1_0000 && 0 <= h.kind < 0x1_0000 && 0 <= h.class_ < 0x100
    && (h.requestId.Some? ==> 0 <= h.requestId.value < 0x1_0000_0000)
  }

  function ToRust(h: TsHeader): (r: Header)
    requires Ranged(h)
    ensures Typed(r)
  {
    Header(h.family, h.kind, ToBits(h.class_),
           if h.requestId.Some? then Some(h.requestId.value) else None, h.compressed, h.sensitive)
  }

  function FromRust(h: Header): TsHeader {
    TsHeader(h.family, h.kind, ToByte(h.class_),
             if h.requestId.Some? then Some(h.requestId.value) else None, h.compressed, h.sensitive)
  }

  /** Whether none of the encoder's checks throws. */
  predicate TsChecks(t: Transport, h: TsHeader) {
    var correlated := h.class_ == ToByte(t.classRequest) || h.class_ == ToByte(t.classResult);
    && (h.class_ == ToByte(t.classEvent) || correlated)
    && correlated == h.requestId.Some?
    && !(h.requestId.Some? && (h.requestId.value <= 0 || h.requestId.value > 0xffff_ffff))
    && 0 <= h.family <= 0xffff && 0 <= h.kind <= 0xffff
  }

  function TsMeta(t: Transport, h: TsHeader): bv8
    requires TsChecks(t, h)
  {
    ToBits(h.class_) | (if h.compressed then t.compressed else 0) | (if h.sensitive then t.sensitive else 0)
  }

  /** A buffer of exactly the header's length, or a thrown error. */
  function EncodeTs(t: Transport, h: TsHeader): Option<seq<Byte>> {
    if !TsChecks(t, h) then None
    else
      var front := U16(h.family) + U16(h.kind) + [ToByte(TsMeta(t, h))];
      Some(if h.requestId.Some? then front + U32(h.requestId.value) else front)
  }

  function DecodeTs(t: Transport, input: seq<Byte>): Option<(TsHeader, nat)>
    requires t.eventHeaderBytes >= 5 && t.correlatedHeaderBytes >= 9
  {
    if |input| < t.eventHeaderBytes then None
    else
      var meta := ToBits(input[4]);
      if meta & t.reservedMask != 0 then None
      else
        var frameClass := meta & t.classMask;
        var correlated := frameClass == t.classRequest || frameClass == t.classResult;
        if frameClass != t.classEvent && !correlated then None
        else
          var bytesRead := if correlated then t.correlatedHeaderBytes else t.eventHeaderBytes;
          if |input| < bytesRead then None
          else
            var requestId := if correlated then Some(FromU32(input[5..9])) else None;
            if requestId == Some(0) then None
            else Some((TsHeader(FromU16(input[..2]), FromU16(input[2..4]), ToByte(frameClass), requestId,
                                meta & t.compressed != 0, meta & t.sensitive != 0), bytesRead))
  }

  lemma ClassNumbers(c: int)
    ensures 0 <= c < 0x100 ==>
        (ToBits(c) == 0 <==> c == 0) && (ToBits(c) == 1 <==> c == 1) && (ToBits(c) == 2 <==> c == 2)
    ensures ToByte(0) == 0 && ToByte(1) == 1 && ToByte(2) == 2
  {
    if 0 <= c < 0x100 {
      ByteOfBits(c);
    }
    hide ToBits;
  }

  lemma MetaOfTs(t: Transport, h: TsHeader)
    requires TsChecks(t, h) && Ranged(h)
    ensures TsMeta(t, h) == Meta(t, ToRust(h))
  {
    hide ToBits, TsChecks;
  }

  lemma TsChecksExactlyLegal(t: Transport, h: TsHeader)
    requires Accepted(t)
    ensures TsChecks(t, h) <==> Ranged(h) && Legal(ToRust(h))
  {
    hide Accepted, ToByte, ToBits;
    AcceptedShape(t);
    ClassNumbers(h.class_);
    if 0 <= h.class_ < 0x100 {
      SmallClass(ToBits(h.class_));
    }
  }

  /** The TypeScript encoder takes exactly the numbers of a legal header and writes the Rust bytes. */
  lemma TsEncodesExactlyLegal(t: Transport, h: TsHeader)
    requires Accepted(t)
    ensures EncodeTs(t, h).Some? <==> Ranged(h) && Legal(ToRust(h))
    ensures EncodeTs(t, h).Some? ==> EncodeTs(t, h).value == Wire(t, ToRust(h), [])
  {
    hide Accepted, ToByte, ToBits, U16, U32, Meta, TsMeta, TsChecks, Legal;
    TsChecksExactlyLegal(t, h);
    if TsChecks(t, h) {
      MetaOfTs(t, h);
    }
  }

  /** Both decoders accept the same inputs and read the same header. */
  lemma DecodersAgree(t: Transport, input: seq<Byte>)
    requires Accepted(t)
    ensures Decode(t, input).Ok? <==> DecodeTs(t, input).Some?
    ensures Decode(t, input).Ok? ==>
      var (h, n) := Decode(t, input).value; DecodeTs(t, input).value == (FromRust(h), n)
  {
    AcceptedShape(t);
    hide Accepted, FromU16, FromU32, ToByte, ToBits;
  }

  /** Both encoders accept the same headers and write the same bytes. */
  lemma EncodersAgree(t: Transport, h: Header)
    requires Accepted(t) && Typed(h)
    ensures Encode(t, h).Ok? <==> EncodeTs(t, FromRust(h)).Some?
    ensures Encode(t, h).Ok? ==>
      var (out, n) := Encode(t, h).value; n <= |out| && EncodeTs(t, FromRust(h)).value == out[..n]
  {
    hide Accepted, Encode, EncodeTs, Wire, ToByte, ToBits;
    AcceptedShape(t);
    EncodesExactlyLegal(t, h);
    TsEncodesExactlyLegal(t, FromRust(h));
    BitsOfByte(h.class_);
    assert ToRust(FromRust(h)) == h;
    if Legal(h) {
      EncodedIsWire(t, h, []);
      var (out, n) := Encode(t, h).value;
      assert out[..n] + [] == out[..n];
    }
  }

  /** A header written by either side is read back by the other. */
  lemma OneSideReadsTheOther(t: Transport, h: Header, payload: seq<Byte>)
    requires Accepted(t) && Legal(h)
    ensures t.eventHeaderBytes >= 5 && t.correlatedHeaderBytes >= 9
    ensures EncodeTs(t, FromRust(h)).Some?
         && Decode(t, EncodeTs(t, FromRust(h)).value + payload) == Ok((h, |EncodeTs(t, FromRust(h)).value|))
    ensures Encode(t, h).Ok?
         && var (out, n) := Encode(t, h).value; n <= |out| && DecodeTs(t, out[..n] + payload) == Some((FromRust(h), n))
  {
    EncodesExactlyLegal(t, h);
    EncodersAgree(t, h);
    DecodeEncode(t, h, payload);
    hide Accepted, Encode, EncodeTs, Decode, DecodeTs;
    var (out, n) := Encode(t, h).value;
    DecodersAgree(t, out[..n] + payload);
  }
}
