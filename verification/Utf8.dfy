/**
  The extension runtime's hand-written UTF-8 codec: `encodeUtf8` from a UTF-16 string and the
  strict `decodeUtf8` back.  Bit operations on disjoint fields are written as arithmetic:
  `0x80 | (x & 0x3f)` is `0x80 + x % 0x40`.
*/
module Utf8 {
  import opened Common
  import opened Bytes

  /** A UTF-16 code unit of a JavaScript string. */
  type CodeUnit = u: int | 0 <= u < 0x1_0000

  /** A Unicode scalar value: a code point that is not a surrogate. */
  type Scalar = s: int | 0 <= s < 0xD800 || 0xE000 <= s < 0x11_0000

  const REPLACEMENT: Scalar := 0xFFFD

  datatype Decoded<T> = Text(value: T) | Invalid(at: nat)

  predicate IsHigh(u: int) { 0xD800 <= u < 0xDC00 }

  predicate IsLow(u: int) { 0xDC00 <= u < 0xE000 }

  // ---------------------------------------------------------------------------------------
  // Section 4 of RFC 3629
  // ---------------------------------------------------------------------------------------

  predicate Tail(b: Byte) { 0x80 <= b <= 0xBF }

  /** One UTF8-char of the grammar. */
  predicate Utf8Char(b: seq<Byte>) {
    || (|b| == 1 && b[0] <= 0x7F)
    || (|b| == 2 && 0xC2 <= b[0] <= 0xDF && Tail(b[1]))
    || (|b| == 3 && b[0] == 0xE0 && 0xA0 <= b[1] <= 0xBF && Tail(b[2]))
    || (|b| == 3 && 0xE1 <= b[0] <= 0xEC && Tail(b[1]) && Tail(b[2]))
    || (|b| == 3 && b[0] == 0xED && 0x80 <= b[1] <= 0x9F && Tail(b[2]))
    || (|b| == 3 && 0xEE <= b[0] <= 0xEF && Tail(b[1]) && Tail(b[2]))
    || (|b| == 4 && b[0] == 0xF0 && 0x90 <= b[1] <= 0xBF && Tail(b[2]) && Tail(b[3]))
    || (|b| == 4 && 0xF1 <= b[0] <= 0xF3 && Tail(b[1]) && Tail(b[2]) && Tail(b[3]))
    || (|b| == 4 && b[0] == 0xF4 && 0x80 <= b[1] <= 0x8F && Tail(b[2]) && Tail(b[3]))
  }

  function Concat(chars: seq<seq<Byte>>): seq<Byte> {
    if chars == [] then [] else chars[0] + Concat(chars[1..])
  }

  /** UTF8-octets: a sequence of UTF8-chars. */
  ghost predicate Utf8Octets(b: seq<Byte>) {
    exists chars: seq<seq<Byte>> :: (forall i :: 0 <= i < |chars| ==> Utf8Char(chars[i])) && Concat(chars) == b
  }

  // ---------------------------------------------------------------------------------------
  // Scalars and bytes
  // ---------------------------------------------------------------------------------------

  /** The bytes of one scalar value, as the encoder lays them out. */
  function EncodeScalar(cp: Scalar): (b: seq<Byte>)
    ensures 1 <= |b| <= 4
  {
    if cp <= 0x7F then [cp]
    else if cp <= 0x7FF then [0xC0 + cp / 0x40, 0x80 + cp % 0x40]
    else if cp <= 0xFFFF then [0xE0 + cp / 0x1000, 0x80 + cp / 0x40 % 0x40, 0x80 + cp % 0x40]
    else [0xF0 + cp / 0x4_0000, 0x80 + cp / 0x1000 % 0x40, 0x80 + cp / 0x40 % 0x40, 0x80 + cp % 0x40]
  }

  lemma EncodingIsGrammar(cp: Scalar)
    ensures Utf8Char(EncodeScalar(cp))
  {
    hide Utf8Char;
    if cp <= 0x7F {
      ShortChar(cp, 0);
    } else if cp <= 0x7FF {
      ShortChar(cp / 0x40, cp % 0x40);
    } else if cp <= 0xFFFF {
      LongDigits(cp);
      LongChar(cp / 0x1000, cp / 0x40 % 0x40, cp % 0x40);
    } else {
      LongDigits(cp);
      LongestChar(cp / 0x4_0000, cp / 0x1000 % 0x40, cp / 0x40 % 0x40, cp % 0x40);
    }
  }

  /** Which leading digits the longer characters can have. */
  lemma LongDigits(cp: Scalar)
    ensures 0x800 <= cp <= 0xFFFF ==>
      && cp / 0x1000 < 0x10 && (cp / 0x1000 == 0 ==> cp / 0x40 % 0x40 >= 0x20)
      && (cp / 0x1000 == 0xD ==> cp / 0x40 % 0x40 < 0x20)
    ensures 0x1_0000 <= cp ==>
      && cp / 0x4_0000 <= 4 && (cp / 0x4_0000 == 0 ==> cp / 0x1000 % 0x40 >= 0x10)
      && (cp / 0x4_0000 == 4 ==> cp / 0x1000 % 0x40 < 0x10)
  {
  }

  lemma ShortChar(x: int, y: int)
    requires 0 <= x <= 0x7F && 0 <= y < 0x40
    ensures Utf8Char([x]) && (2 <= x < 0x20 ==> Utf8Char([0xC0 + x, 0x80 + y]))
  {
  }

  lemma LongChar(x: int, y: int, z: int)
    requires 0 <= x < 0x10 && 0 <= y < 0x40 && 0 <= z < 0x40
    requires (x == 0 ==> y >= 0x20) && (x == 0xD ==> y < 0x20)
    ensures Utf8Char([0xE0 + x, 0x80 + y, 0x80 + z])
  {
  }

  lemma LongestChar(x: int, y: int, z: int, t: int)
    requires 0 <= x <= 4 && 0 <= y < 0x40 && 0 <= z < 0x40 && 0 <= t < 0x40
    requires (x == 0 ==> y >= 0x10) && (x == 4 ==> y < 0x10)
    ensures Utf8Char([0xF0 + x, 0x80 + y, 0x80 + z, 0x80 + t])
  {
  }

  predicate Continuation(b: Byte) { b / 0x40 == 2 }

  /** The width the decoder finds for the character at the front, 0 if there is none. */
  function FrontWidth(b: seq<Byte>): (w: nat)
    requires b != []
    ensures w <= 4 && w <= |b|
  {
    var first := b[0];
    if first <= 0x7F then 1
    else if 0xC2 <= first <= 0xDF && 1 < |b| && Continuation(b[1]) then 2
    else if 0xE0 <= first <= 0xEF && 2 < |b| && Continuation(b[1]) && Continuation(b[2])
      && !(first == 0xE0 && b[1] < 0xA0) && !(first == 0xED && b[1] >= 0xA0) then 3
    else if 0xF0 <= first <= 0xF4 && 3 < |b| && Continuation(b[1]) && Continuation(b[2]) && Continuation(b[3])
      && !(first == 0xF0 && b[1] < 0x90) && !(first == 0xF4 && b[1] >= 0x90) then 4
    else 0
  }

  /** The code point of a character of the width just found. */
  function FrontScalar(b: seq<Byte>): (cp: Scalar)
    requires b != [] && FrontWidth(b) > 0
  {
    var first: int := b[0];
    match FrontWidth(b)
    case 1 => first
    case 2 => first % 0x20 * 0x40 + Low6(b[1])
    case 3 => first % 0x10 * 0x1000 + Low6(b[1]) * 0x40 + Low6(b[2])
    case _ => first % 0x08 * 0x4_0000 + Low6(b[1]) * 0x1000 + Low6(b[2]) * 0x40 + Low6(b[3])
  }

  /** The payload bits of a continuation byte. */
  function Low6(b: Byte): int { b % 0x40 }

  function EncodeScalars(cps: seq<Scalar>): seq<Byte> {
    if cps == [] then [] else EncodeScalar(cps[0]) + EncodeScalars(cps[1..])
  }

  function DecodeScalars(b: seq<Byte>): Decoded<seq<Scalar>>
    decreases |b|
  {
    if b == [] then Text([])
    else
      var w := FrontWidth(b);
      if w == 0 then Invalid(0)
      else match DecodeScalars(b[w..])
        case Text(rest) => Text([FrontScalar(b)] + rest)
        case Invalid(at) => Invalid(w + at)
  }

  /** The front character found is the grammar's, and there is one whenever the grammar has one. */
  lemma FrontIsGrammar(b: seq<Byte>)
    requires b != []
    ensures FrontWidth(b) > 0 ==> Utf8Char(b[..FrontWidth(b)])
    ensures forall n :: 0 < n <= |b| && Utf8Char(b[..n]) ==> n == FrontWidth(b)
  {
    forall n | 0 < n <= |b| && Utf8Char(b[..n]) ensures n == FrontWidth(b) {
      assert forall i :: 0 <= i < n ==> b[..n][i] == b[i];
    }
  }

  lemma FrontOfEncoding(cp: Scalar, rest: seq<Byte>)
    ensures var b := EncodeScalar(cp) + rest;
      FrontWidth(b) == |EncodeScalar(cp)| && FrontScalar(b) == cp && b[FrontWidth(b)..] == rest
  {
    var b, c := EncodeScalar(cp) + rest, EncodeScalar(cp);
    assert b[..|c|] == c;
    EncodingIsGrammar(cp);
    FrontIsGrammar(b);
    hide FrontWidth, FrontScalar, EncodeScalar, Utf8Char;
    ScalarOfEncoding(cp, b);
  }

  lemma ScalarOfEncoding(cp: Scalar, b: seq<Byte>)
    requires |b| >= |EncodeScalar(cp)| == FrontWidth(b) && b[..|EncodeScalar(cp)|] == EncodeScalar(cp)
    ensures FrontScalar(b) == cp
  {
    var c, w := EncodeScalar(cp), |EncodeScalar(cp)|;
    assert forall i :: 0 <= i < w ==> b[i] == b[..w][i] == c[i];
    hide FrontWidth, Utf8Char, Low6;
    Payloads(cp);
  }

  /** The payload bits of the encoder's bytes put the code point back together. */
  lemma Payloads(cp: Scalar)
    ensures 0x80 <= cp <= 0x7FF ==> (0xC0 + cp / 0x40) % 0x20 * 0x40 + Low6(0x80 + cp % 0x40) == cp
    ensures 0x800 <= cp <= 0xFFFF ==>
      (0xE0 + cp / 0x1000) % 0x10 * 0x1000 + Low6(0x80 + cp / 0x40 % 0x40) * 0x40 + Low6(0x80 + cp % 0x40) == cp
    ensures 0x1_0000 <= cp ==>
      (0xF0 + cp / 0x4_0000) % 0x08 * 0x4_0000 + Low6(0x80 + cp / 0x1000 % 0x40) * 0x1000
      + Low6(0x80 + cp / 0x40 % 0x40) * 0x40 + Low6(0x80 + cp % 0x40) == cp
  {
    LowOf(cp / 0x1000 % 0x40);
    LowOf(cp / 0x40 % 0x40);
    LowOf(cp % 0x40);
    hide Low6;
    Places(cp);
    Lead(if cp <= 0x7FF then 0xC0 + cp / 0x40 else 0xF0);
    Lead(if cp <= 0xFFFF then 0xE0 + cp / 0x1000 else 0xF0);
    Lead(0xF0 + cp / 0x4_0000);
    assert cp <= 0x7FF ==> (0xC0 + cp / 0x40) % 0x20 == cp / 0x40;
    assert cp <= 0xFFFF ==> (0xE0 + cp / 0x1000) % 0x10 == cp / 0x1000;
    assert (0xF0 + cp / 0x4_0000) % 0x08 == cp / 0x4_0000;
  }

  lemma Places(cp: nat)
    ensures cp == cp / 0x40 * 0x40 + cp % 0x40
    ensures cp / 0x40 == cp / 0x1000 * 0x40 + cp / 0x40 % 0x40
    ensures cp / 0x1000 == cp / 0x4_0000 * 0x40 + cp / 0x1000 % 0x40
  {
  }

  lemma LowOf(x: int)
    requires 0 <= x < 0x40
    ensures Low6(0x80 + x) == x
  {
  }

  lemma EncodingOfFront(b: seq<Byte>)
    requires b != [] && FrontWidth(b) > 0
    ensures EncodeScalar(FrontScalar(b)) == b[..FrontWidth(b)]
  {
    var cp, w := FrontScalar(b), FrontWidth(b);
    FrontDigits(b);
    assert |EncodeScalar(cp)| == w;
    assert forall i :: 0 <= i < w ==> EncodeScalar(cp)[i] == b[i];
  }

  /** The digits of the decoded code point are the payloads of the bytes it came from. */
  lemma FrontDigits(b: seq<Byte>)
    requires b != [] && FrontWidth(b) > 0
    ensures var cp, w := FrontScalar(b), FrontWidth(b);
      && (w == 1 ==> cp == b[0] <= 0x7F)
      && (w == 2 ==> 0x80 <= cp <= 0x7FF && cp / 0x40 == b[0] - 0xC0 && cp % 0x40 == b[1] - 0x80)
      && (w == 3 ==> 0x800 <= cp <= 0xFFFF && cp / 0x1000 == b[0] - 0xE0
                     && cp / 0x40 % 0x40 == b[1] - 0x80 && cp % 0x40 == b[2] - 0x80)
      && (w == 4 ==> 0x1_0000 <= cp && cp / 0x4_0000 == b[0] - 0xF0 && cp / 0x1000 % 0x40 == b[1] - 0x80
                     && cp / 0x40 % 0x40 == b[2] - 0x80 && cp % 0x40 == b[3] - 0x80)
  {
    var w := FrontWidth(b);
    if w == 2 {
      Digits2(b[0], b[1]);
    } else if w == 3 {
      Digits3(b[0], b[1], b[2]);
    } else if w == 4 {
      Digits4(b[0], b[1], b[2], b[3]);
    }
    hide Low6;
  }

  /** The payload of a leading byte, by its place in the range of such bytes. */
  lemma Lead(b: Byte)
    ensures 0xC0 <= b <= 0xDF ==> b as int % 0x20 == b - 0xC0
    ensures 0xE0 <= b <= 0xEF ==> b as int % 0x10 == b - 0xE0
    ensures 0xF0 <= b <= 0xF7 ==> b as int % 0x08 == b - 0xF0
  {
  }

  lemma Digits2(b0: Byte, b1: Byte)
    requires 0xC2 <= b0 <= 0xDF && Tail(b1)
    ensures var cp := b0 as int % 0x20 * 0x40 + Low6(b1);
      0x80 <= cp <= 0x7FF && cp / 0x40 == b0 - 0xC0 && cp % 0x40 == b1 - 0x80
  {
    hide Low6;
    LowOf(b1 - 0x80);
    Lead(b0);
    Digits(0, 0, b0 - 0xC0, b1 - 0x80);
  }

  lemma Digits3(b0: Byte, b1: Byte, b2: Byte)
    requires 0xE0 <= b0 <= 0xEF && Tail(b1) && Tail(b2) && (b0 == 0xE0 ==> b1 >= 0xA0)
    ensures var cp := b0 as int % 0x10 * 0x1000 + Low6(b1) * 0x40 + Low6(b2);
      0x800 <= cp <= 0xFFFF && cp / 0x1000 == b0 - 0xE0 && cp / 0x40 % 0x40 == b1 - 0x80 && cp % 0x40 == b2 - 0x80
  {
    hide Low6;
    LowOf(b1 - 0x80);
    LowOf(b2 - 0x80);
    Lead(b0);
    Digits(0, b0 - 0xE0, b1 - 0x80, b2 - 0x80);
  }

  lemma Digits4(b0: Byte, b1: Byte, b2: Byte, b3: Byte)
    requires 0xF0 <= b0 <= 0xF4 && Tail(b1) && Tail(b2) && Tail(b3) && (b0 == 0xF0 ==> b1 >= 0x90)
    ensures var cp := b0 as int % 0x08 * 0x4_0000 + Low6(b1) * 0x1000 + Low6(b2) * 0x40 + Low6(b3);
      && 0x1_0000 <= cp && cp / 0x4_0000 == b0 - 0xF0 && cp / 0x1000 % 0x40 == b1 - 0x80
      && cp / 0x40 % 0x40 == b2 - 0x80 && cp % 0x40 == b3 - 0x80
  {
    hide Low6;
    LowOf(b1 - 0x80);
    LowOf(b2 - 0x80);
    LowOf(b3 - 0x80);
    Lead(b0);
    Digits(b0 - 0xF0, b1 - 0x80, b2 - 0x80, b3 - 0x80);
  }

  lemma Digits(x: int, y: int, z: int, t: int)
    requires 0 <= x && 0 <= y < 0x40 && 0 <= z < 0x40 && 0 <= t < 0x40
    ensures var cp := x * 0x4_0000 + y * 0x1000 + z * 0x40 + t;
      && cp / 0x4_0000 == x && cp / 0x1000 % 0x40 == y && cp / 0x40 % 0x40 == z && cp % 0x40 == t
      && cp / 0x1000 == x * 0x40 + y && cp / 0x40 == x * 0x1000 + y * 0x40 + z
  {
    var q := x * 0x1000 + y * 0x40 + z;
    var p := x * 0x40 + y;
    Digit(q, t);
    Digit(p, z);
    Digit(x, y);
    Divisions(q * 0x40 + t);
  }

  lemma Digit(q: int, t: int)
    requires 0 <= q && 0 <= t < 0x40
    ensures (q * 0x40 + t) / 0x40 == q && (q * 0x40 + t) % 0x40 == t
  {
  }

  lemma Divisions(n: int)
    requires 0 <= n
    ensures n / 0x1000 == n / 0x40 / 0x40 && n / 0x4_0000 == n / 0x40 / 0x40 / 0x40
  {
  }

  /** Decoding what was encoded gives the scalars back. */
  lemma {:induction false} DecodeEncode(cps: seq<Scalar>)
    ensures DecodeScalars(EncodeScalars(cps)) == Text(cps)
    decreases |cps|
  {
    hide EncodeScalar, FrontWidth, FrontScalar, Utf8Char;
    if cps != [] {
      FrontOfEncoding(cps[0], EncodeScalars(cps[1..]));
      DecodeEncode(cps[1..]);
      assert [cps[0]] + cps[1..] == cps;
    }
  }

  /** Encoding what was decoded reproduces the bytes. */
  lemma {:induction false} EncodeDecode(b: seq<Byte>)
    requires DecodeScalars(b).Text?
    ensures EncodeScalars(DecodeScalars(b).value) == b
    decreases |b|
  {
    hide EncodeScalar, FrontWidth, FrontScalar, Utf8Char;
    if b != [] {
      EncodingOfFront(b);
      var rest := b[FrontWidth(b)..];
      EncodeDecode(rest);
      assert DecodeScalars(b).value[1..] == DecodeScalars(rest).value;
      assert b[..FrontWidth(b)] + rest == b;
    }
  }

  /** The decoder accepts exactly the octet sequences of the grammar. */
  lemma AcceptsExactlyTheGrammar(b: seq<Byte>)
    ensures DecodeScalars(b).Text? <==> Utf8Octets(b)
  {
    if DecodeScalars(b).Text? {
      var chars := AcceptedIsGrammar(b);
    }
    if Utf8Octets(b) {
      var chars :| (forall i :: 0 <= i < |chars| ==> Utf8Char(chars[i])) && Concat(chars) == b;
      GrammarIsAccepted(chars);
    }
  }

  lemma {:induction false} AcceptedIsGrammar(b: seq<Byte>) returns (chars: seq<seq<Byte>>)
    requires DecodeScalars(b).Text?
    ensures (forall i :: 0 <= i < |chars| ==> Utf8Char(chars[i])) && Concat(chars) == b
    decreases |b|
  {
    hide FrontWidth, FrontScalar, Utf8Char;
    chars := [];
    if b != [] {
      FrontIsGrammar(b);
      var rest := AcceptedIsGrammar(b[FrontWidth(b)..]);
      chars := [b[..FrontWidth(b)]] + rest;
      assert chars[1..] == rest;
    }
  }

  lemma {:induction false} GrammarIsAccepted(chars: seq<seq<Byte>>)
    requires forall i :: 0 <= i < |chars| ==> Utf8Char(chars[i])
    ensures DecodeScalars(Concat(chars)).Text?
    decreases |chars|
  {
    if chars != [] {
      var b, c := Concat(chars), chars[0];
      assert |c| > 0;
      hide FrontWidth, FrontScalar, Utf8Char;
      assert b[..|c|] == c && b[|c|..] == Concat(chars[1..]);
      FrontIsGrammar(b);
      GrammarIsAccepted(chars[1..]);
    }
  }

  /** A rejection names the end of the longest well-formed prefix: no character starts there. */
  lemma {:induction false} RejectionPoint(b: seq<Byte>)
    requires DecodeScalars(b).Invalid?
    ensures var at := DecodeScalars(b).at;
      at < |b| && DecodeScalars(b[..at]).Text? && forall n :: 0 < n <= |b| - at ==> !Utf8Char(b[at..][..n])
    decreases |b|
  {
    hide FrontScalar, Utf8Char, FrontWidth;
    var w := FrontWidth(b);
    FrontIsGrammar(b);
    if w > 0 {
      RejectionPoint(b[w..]);
      var at := DecodeScalars(b).at;
      FrontIsGrammar(b[..at]);
      TakeAndDrop(b, w, at);
    } else {
      assert b[0..] == b;
    }
  }

  // ---------------------------------------------------------------------------------------
  // UTF-16
  // ---------------------------------------------------------------------------------------

  /** `codePointAt`: a high surrogate followed by a low one is read as a pair. */
  predicate PairAt(text: seq<CodeUnit>, i: nat) {
    i + 1 < |text| && IsHigh(text[i]) && IsLow(text[i + 1])
  }

  function PairScalar(high: CodeUnit, low: CodeUnit): Scalar
    requires IsHigh(high) && IsLow(low)
  {
    0x1_0000 + (high - 0xD800) * 0x400 + (low - 0xDC00)
  }

  function LoneScalar(u: CodeUnit): Scalar { if IsHigh(u) || IsLow(u) then REPLACEMENT else u }

  /** The scalars the encoder writes for the text from `i` on. */
  function ScalarsFrom(text: seq<CodeUnit>, i: nat): seq<Scalar>
    requires i <= |text|
    decreases |text| - i
  {
    if i == |text| then []
    else if PairAt(text, i) then [PairScalar(text[i], text[i + 1])] + ScalarsFrom(text, i + 2)
    else [LoneScalar(text[i])] + ScalarsFrom(text, i + 1)
  }

  function Units(cp: Scalar): (u: seq<CodeUnit>)
    ensures 1 <= |u| <= 2
  {
    if cp <= 0xFFFF then [cp] else [0xD800 + (cp - 0x1_0000) / 0x400, 0xDC00 + (cp - 0x1_0000) % 0x400]
  }

  function Utf16(cps: seq<Scalar>): seq<CodeUnit> {
    if cps == [] then [] else Units(cps[0]) + Utf16(cps[1..])
  }

  /** A surrogate without its partner beside it. */
  predicate Unpaired(text: seq<CodeUnit>, i: nat)
    requires i < |text|
  {
    || (IsHigh(text[i]) && !(i + 1 < |text| && IsLow(text[i + 1])))
    || (IsLow(text[i]) && !(i > 0 && IsHigh(text[i - 1])))
  }

  function Repaired(text: seq<CodeUnit>): (r: seq<CodeUnit>)
    ensures |r| == |text|
    ensures forall i :: 0 <= i < |r| ==> r[i] == if Unpaired(text, i) then REPLACEMENT else text[i]
  {
    seq(|text|, i requires 0 <= i < |text| => if Unpaired(text, i) then REPLACEMENT else text[i])
  }

  function EncodeText(text: seq<CodeUnit>): seq<Byte> { EncodeScalars(ScalarsFrom(text, 0)) }

  function DecodeText(b: seq<Byte>): Decoded<seq<CodeUnit>> {
    match DecodeScalars(b) case Text(cps) => Text(Utf16(cps)) case Invalid(at) => Invalid(at)
  }

  /** The code units of the scalar read at `i` are the repaired ones. */
  lemma UnitsAt(text: seq<CodeUnit>, i: nat)
    requires i < |text| && (i > 0 ==> !PairAt(text, i - 1))
    ensures PairAt(text, i) ==> Units(PairScalar(text[i], text[i + 1])) == [Repaired(text)[i], Repaired(text)[i + 1]]
    ensures !PairAt(text, i) ==> Units(LoneScalar(text[i])) == [Repaired(text)[i]]
  {
  }

  lemma {:induction false} ScalarsRepair(text: seq<CodeUnit>, i: nat)
    requires i <= |text| && (i > 0 ==> !PairAt(text, i - 1))
    ensures Utf16(ScalarsFrom(text, i)) == Repaired(text)[i..]
    decreases |text| - i
  {
    hide ScalarsFrom, Units, Repaired, PairScalar, LoneScalar, Unpaired;
    if i == |text| {
      ScalarsEnd(text);
      Utf16Empty();
    } else {
      var n := if PairAt(text, i) then 2 else 1;
      ScalarsRepair(text, i + n);
      UnitsAt(text, i);
      ScalarsStep(text, i);
      var cps, r := ScalarsFrom(text, i), Repaired(text);
      assert cps[1..] == ScalarsFrom(text, i + n);
      assert r[i..] == r[i..i + n] + r[i + n..];
      assert Units(cps[0]) == r[i..i + n];
    }
  }

  /** A well-formed UTF-16 text is read back as the scalars it was written from. */
  lemma ScalarOfUnits(cp: Scalar)
    ensures var u := Units(cp);
      if |u| == 2 then IsHigh(u[0]) && IsLow(u[1]) && PairScalar(u[0], u[1]) == cp
      else !IsHigh(u[0]) && !IsLow(u[0]) && LoneScalar(u[0]) == cp
  {
  }

  lemma {:induction false} ScalarsOfUtf16(cps: seq<Scalar>, before: seq<CodeUnit>)
    ensures ScalarsFrom(before + Utf16(cps), |before|) == cps
    decreases |cps|
  {
    hide ScalarsFrom, Units, PairScalar, LoneScalar;
    var text := before + Utf16(cps);
    if cps == [] {
      ScalarsEnd(text);
    } else {
      var u, rest := Units(cps[0]), Utf16(cps[1..]);
      ScalarsOfUtf16(cps[1..], before + u);
      assert text == before + u + rest;
      assert text[|before|] == u[0];
      if |u| == 2 {
        assert text[|before| + 1] == u[1];
      }
      ScalarOfUnits(cps[0]);
      ScalarsStep(text, |before|);
      assert cps == [cps[0]] + cps[1..];
    }
  }

  /** Decoding an encoded string never fails and repairs exactly its unpaired surrogates. */
  lemma TextRoundTrip(text: seq<CodeUnit>)
    ensures DecodeText(EncodeText(text)) == Text(Repaired(text))
  {
    DecodeEncode(ScalarsFrom(text, 0));
    ScalarsRepair(text, 0);
    assert Repaired(text)[0..] == Repaired(text);
  }

  /** Whatever the decoder accepts, and nothing outside the grammar, re-encodes to itself. */
  lemma DecodeIsStrict(b: seq<Byte>)
    ensures DecodeText(b).Text? <==> Utf8Octets(b)
    ensures DecodeText(b).Text? ==> EncodeText(DecodeText(b).value) == b
  {
    AcceptsExactlyTheGrammar(b);
    if DecodeText(b).Text? {
      EncodeDecode(b);
      var cps := DecodeScalars(b).value;
      ScalarsOfUtf16(cps, []);
      assert [] + Utf16(cps) == Utf16(cps);
    }
  }

  // ---------------------------------------------------------------------------------------
  // What the encoder writes
  // ---------------------------------------------------------------------------------------

  /** The number that the payload bits of one character's bytes spell (section 3 of RFC 3629). */
  function Spelled(b: seq<Byte>): int {
    if |b| == 1 then b[0]
    else if |b| == 2 then (b[0] as int - 0xC0) * 0x40 + (b[1] as int - 0x80)
    else if |b| == 3 then (b[0] as int - 0xE0) * 0x1000 + (b[1] as int - 0x80) * 0x40 + (b[2] as int - 0x80)
    else if |b| == 4 then
      (b[0] as int - 0xF0) * 0x4_0000 + (b[1] as int - 0x80) * 0x1000
      + (b[2] as int - 0x80) * 0x40 + (b[3] as int - 0x80)
    else -1
  }

  lemma EncodingSpells(cp: Scalar)
    ensures var b := EncodeScalar(cp); Utf8Char(b) && Spelled(b) == cp
  {
    EncodingIsGrammar(cp);
    hide Utf8Char;
    Places(cp);
  }

  lemma OneScalar(cp: Scalar)
    ensures EncodeScalars([cp]) == EncodeScalar(cp)
  {
    hide EncodeScalar;
    assert [cp][1..] == [] && EncodeScalars([]) == [] && EncodeScalar(cp) + [] == EncodeScalar(cp);
  }

  /** A code unit alone is one character of its own number, a surrogate one of 0xFFFD. */
  lemma UnitIsBytes(u: CodeUnit)
    ensures var b := EncodeText([u]);
      Utf8Char(b) && Spelled(b) == if 0xD800 <= u <= 0xDFFF then 0xFFFD else u
  {
    hide EncodeScalar, EncodeScalars, Utf8Char, Spelled;
    var cp := LoneScalar(u);
    assert ScalarsFrom([u], 1) == [];
    assert ScalarsFrom([u], 0) == [cp] + [] == [cp];
    OneScalar(cp);
    EncodingSpells(cp);
  }

  /** A surrogate pair is one character of four bytes, ten bits from each half above 0x10000. */
  lemma PairIsBytes(high: CodeUnit, low: CodeUnit)
    requires 0xD800 <= high <= 0xDBFF && 0xDC00 <= low <= 0xDFFF
    ensures var b := EncodeText([high, low]);
      Utf8Char(b) && |b| == 4 && Spelled(b) == 0x1_0000 + (high - 0xD800) * 0x400 + (low - 0xDC00)
  {
    hide EncodeScalars, Utf8Char, Spelled;
    var text, cp := [high, low], PairScalar(high, low);
    assert ScalarsFrom(text, 2) == [];
    assert ScalarsFrom(text, 0) == [cp] + [] == [cp];
    OneScalar(cp);
    EncodingSpells(cp);
  }

  lemma {:induction false} EncodeScalarsConcat(a: seq<Scalar>, b: seq<Scalar>)
    ensures EncodeScalars(a + b) == EncodeScalars(a) + EncodeScalars(b)
    decreases |a|
  {
    hide EncodeScalar;
    if a == [] {
      assert a + b == b && [] + EncodeScalars(b) == EncodeScalars(b);
    } else {
      EncodeScalarsConcat(a[1..], b);
      assert (a + b)[1..] == a[1..] + b;
    }
  }

  lemma {:induction false} ScalarsShift(a: seq<CodeUnit>, b: seq<CodeUnit>, i: nat)
    requires i <= |b|
    ensures ScalarsFrom(a + b, |a| + i) == ScalarsFrom(b, i)
    decreases |b| - i
  {
    hide PairScalar, LoneScalar, ScalarsFrom;
    var text := a + b;
    if i < |b| {
      assert text[|a| + i] == b[i] && (PairAt(text, |a| + i) <==> PairAt(b, i));
      ScalarsShift(a, b, i + if PairAt(b, i) then 2 else 1);
      ScalarsStep(b, i);
      ScalarsStep(text, |a| + i);
    } else {
      ScalarsEnd(b);
      ScalarsEnd(text);
    }
  }

  /** A pair stands across the seam. */
  predicate Straddles(a: seq<CodeUnit>, b: seq<CodeUnit>) {
    a != [] && b != [] && IsHigh(a[|a| - 1]) && IsLow(b[0])
  }

  lemma {:induction false} ScalarsSplit(a: seq<CodeUnit>, b: seq<CodeUnit>, i: nat)
    requires i <= |a| && !Straddles(a, b)
    ensures ScalarsFrom(a + b, i) == ScalarsFrom(a, i) + ScalarsFrom(b, 0)
    decreases |a| - i
  {
    hide PairScalar, LoneScalar, ScalarsFrom;
    if i == |a| {
      ScalarsShift(a, b, 0);
      ScalarsEnd(a);
      assert [] + ScalarsFrom(b, 0) == ScalarsFrom(b, 0);
    } else {
      assert PairAt(a + b, i) <==> PairAt(a, i);
      ScalarsSplit(a, b, i + if PairAt(a, i) then 2 else 1);
      ScalarsStep(a, i);
      ScalarsStep(a + b, i);
    }
  }

  lemma TextSplit(a: seq<CodeUnit>, b: seq<CodeUnit>)
    requires !Straddles(a, b)
    ensures EncodeText(a + b) == EncodeText(a) + EncodeText(b)
  {
    hide ScalarsFrom, EncodeScalars;
    ScalarsSplit(a, b, 0);
    EncodeScalarsConcat(ScalarsFrom(a, 0), ScalarsFrom(b, 0));
  }

  /** Encoding in two pieces is encoding the whole exactly when no surrogate pair is cut in two. */
  lemma EncodingInPieces(a: seq<CodeUnit>, b: seq<CodeUnit>)
    ensures EncodeText(a + b) == EncodeText(a) + EncodeText(b) <==>
      !(a != [] && b != [] && 0xD800 <= a[|a| - 1] <= 0xDBFF && 0xDC00 <= b[0] <= 0xDFFF)
  {
    hide EncodeText, Utf8Char, Spelled;
    if Straddles(a, b) {
      var before, high, low, after := a[..|a| - 1], a[|a| - 1], b[0], b[1..];
      assert a == before + [high] && b == [low] + after && a + b == before + ([high, low] + after);
      TextSplit(before, [high, low] + after);
      TextSplit([high, low], after);
      TextSplit(before, [high]);
      TextSplit([low], after);
      PairIsBytes(high, low);
      LoneIsThree(high);
      LoneIsThree(low);
    } else {
      TextSplit(a, b);
    }
  }

  lemma LoneIsThree(u: CodeUnit)
    requires IsHigh(u) || IsLow(u)
    ensures |EncodeText([u])| == 3
  {
    hide EncodeScalars;
    assert ScalarsFrom([u], 1) == [];
    assert ScalarsFrom([u], 0) == [REPLACEMENT] + [] == [REPLACEMENT];
    OneScalar(REPLACEMENT);
  }

  // ---------------------------------------------------------------------------------------
  // The loops
  // ---------------------------------------------------------------------------------------

  method EncodeUtf8(text: seq<CodeUnit>) returns (bytes: seq<Byte>)
    ensures bytes == EncodeText(text)
  {
    hide EncodeScalar, ScalarsFrom, EncodeScalars, PairScalar;
    bytes := [];
    var index := 0;
    ghost var cps: seq<Scalar> := [];
    ScalarsEnd(text);
    assert cps + ScalarsFrom(text, 0) == ScalarsFrom(text, 0);
    while index < |text|
      invariant 0 <= index <= |text|
      invariant bytes == EncodeScalars(cps)
      invariant cps + ScalarsFrom(text, index) == ScalarsFrom(text, 0)
    {
      var codePoint: int := text[index];
      ghost var rest := ScalarsFrom(text, index);
      ScalarsStep(text, index);
      if PairAt(text, index) {
        codePoint := PairScalar(text[index], text[index + 1]);
        index := index + 1;
      }
      if 0xD800 <= codePoint <= 0xDFFF {
        codePoint := REPLACEMENT;
      }
      index := index + 1;
      assert rest == [codePoint] + ScalarsFrom(text, index);
      EncodeAppend(cps, codePoint);
      bytes := bytes + EncodeScalar(codePoint);
      assert (cps + [codePoint]) + ScalarsFrom(text, index) == cps + rest;
      cps := cps + [codePoint];
    }
    assert cps + [] == cps;
  }

  lemma ScalarsEnd(text: seq<CodeUnit>)
    ensures ScalarsFrom(text, |text|) == [] && EncodeScalars([]) == []
  {
  }

  lemma ScalarsStep(text: seq<CodeUnit>, i: nat)
    requires i < |text|
    ensures PairAt(text, i) ==> var cp := PairScalar(text[i], text[i + 1]);
      cp >= 0x1_0000 && ScalarsFrom(text, i) == [cp] + ScalarsFrom(text, i + 2)
    ensures !PairAt(text, i) ==> ScalarsFrom(text, i) == [LoneScalar(text[i])] + ScalarsFrom(text, i + 1)
  {
  }

  lemma {:induction false} EncodeAppend(cps: seq<Scalar>, cp: Scalar)
    ensures EncodeScalars(cps + [cp]) == EncodeScalars(cps) + EncodeScalar(cp)
    decreases |cps|
  {
    hide EncodeScalar;
    if cps == [] {
      assert EncodeScalars([]) == [] && [cp][1..] == [];
      assert EncodeScalar(cp) + [] == EncodeScalar(cp);
    } else {
      EncodeAppend(cps[1..], cp);
      assert (cps + [cp])[1..] == cps[1..] + [cp];
    }
  }

  /** What is left of a decoding after `cps` have been read from the first `index` bytes. */
  function Resumed(cps: seq<Scalar>, index: nat, rest: Decoded<seq<Scalar>>): Decoded<seq<Scalar>> {
    match rest case Text(more) => Text(cps + more) case Invalid(at) => Invalid(index + at)
  }

  lemma ResumeStep(cps: seq<Scalar>, index: nat, b: seq<Byte>)
    requires b != [] && FrontWidth(b) > 0
    ensures Resumed(cps, index, DecodeScalars(b))
         == Resumed(cps + [FrontScalar(b)], index + FrontWidth(b), DecodeScalars(b[FrontWidth(b)..]))
  {
    hide FrontWidth, FrontScalar;
    var rest := DecodeScalars(b[FrontWidth(b)..]);
    if rest.Text? {
      assert cps + ([FrontScalar(b)] + rest.value) == (cps + [FrontScalar(b)]) + rest.value;
    }
  }

  lemma ResumeStart(b: seq<Byte>)
    ensures Resumed([], 0, DecodeScalars(b)) == DecodeScalars(b)
  {
    hide DecodeScalars;
    if DecodeScalars(b).Text? {
      assert [] + DecodeScalars(b).value == DecodeScalars(b).value;
    }
  }

  lemma ResumeStop(cps: seq<Scalar>, index: nat, b: seq<Byte>)
    requires b != [] && FrontWidth(b) == 0
    ensures Resumed(cps, index, DecodeScalars(b)) == Invalid(index)
  {
    hide FrontWidth;
  }

  lemma ResumeEnd(cps: seq<Scalar>, index: nat)
    ensures Resumed(cps, index, DecodeScalars([])) == Text(cps)
  {
    assert cps + [] == cps;
  }

  method DecodeUtf8(bytes: seq<Byte>) returns (result: Decoded<seq<CodeUnit>>)
    ensures result == DecodeText(bytes)
  {
    hide FrontWidth, FrontScalar, Utf16, DecodeScalars, Resumed, Units;
    var codeUnits: seq<CodeUnit> := [];
    ghost var cps: seq<Scalar> := [];
    var index := 0;
    Utf16Empty();
    assert bytes[0..] == bytes;
    ResumeStart(bytes);
    while index < |bytes|
      invariant 0 <= index <= |bytes|
      invariant codeUnits == Utf16(cps)
      invariant Resumed(cps, index, DecodeScalars(bytes[index..])) == DecodeScalars(bytes)
    {
      var front := bytes[index..];
      var width := FrontWidth(front);
      if width == 0 {
        ResumeStop(cps, index, front);
        return Invalid(index);
      }
      var codePoint := FrontScalar(front);
      ResumeStep(cps, index, front);
      Utf16Append(cps, codePoint);
      codeUnits := codeUnits + Units(codePoint);
      assert front[width..] == bytes[index + width..];
      cps := cps + [codePoint];
      index := index + width;
    }
    assert bytes[index..] == [];
    ResumeEnd(cps, index);
    var text := FromCharCodes(codeUnits);
    result := Text(text);
  }

  lemma Utf16Empty()
    ensures Utf16([]) == []
  {
  }

  /** The string is built from the code units 4096 at a time. */
  method FromCharCodes(codeUnits: seq<CodeUnit>) returns (text: seq<CodeUnit>)
    ensures text == codeUnits
  {
    text := [];
    var offset := 0;
    while offset < |codeUnits|
      invariant 0 <= offset && text == codeUnits[..if offset <= |codeUnits| then offset else |codeUnits|]
    {
      var next := if offset + 4096 <= |codeUnits| then offset + 4096 else |codeUnits|;
      text := text + codeUnits[offset..next];
      offset := offset + 4096;
    }
  }

  lemma {:induction false} Utf16Append(cps: seq<Scalar>, cp: Scalar)
    ensures Utf16(cps + [cp]) == Utf16(cps) + Units(cp)
    decreases |cps|
  {
    if cps == [] {
      assert Utf16([]) == [] && [cp][1..] == [];
    } else {
      Utf16Append(cps[1..], cp);
      assert (cps + [cp])[1..] == cps[1..] + [cp];
    }
  }
}
