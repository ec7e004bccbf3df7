/**
  Forward specifications, `[kind/][bind:]port:host:hostport`: the parser, the printer, and exactly
  which specifications survive printing and parsing.
*/
module ForwardSpec {
  import opened Common

  datatype Kind = Tcp | Udp | Tls

  datatype Spec = Spec(kind: Kind, bind: string, localPort: nat, host: string, hostPort: nat)

  datatype Error = UnknownKind | Unterminated | WrongFields | BadTargetPort | EmptyHost | BadLocalPort | EmptyBind

  datatype Result<+T> = Ok(value: T) | Err(error: Error)

  const DEFAULT_BIND: string := "127.0.0.1"

  predicate IsSpec(s: Spec) { s.localPort < 0x1_0000 && s.hostPort < 0x1_0000 }

  // ---------------------------------------------------------------------------------------
  // Splitting into fields
  // ---------------------------------------------------------------------------------------

  /** The scanner's variables; `Failed` after junk behind a closing bracket. */
  datatype Scan = Scan(fields: seq<string>, cur: string, inBracket: bool, closed: bool) | Failed

  function Fresh(fields: seq<string>): Scan { Scan(fields, "", false, false) }

  function Step(st: Scan, c: char): Scan {
    if st.Failed? then Failed
    else if c == '[' && !st.inBracket && st.cur == "" && !st.closed then st.(inBracket := true)
    else if c == ']' && st.inBracket then st.(inBracket := false, closed := true)
    else if c == ':' && !st.inBracket then Scan(st.fields + [st.cur], "", st.inBracket, false)
    else if st.closed then Failed
    else st.(cur := st.cur + [c])
  }

  function Scanned(st: Scan, s: string): Scan {
    if s == "" then st else Step(Scanned(st, s[..|s| - 1]), s[|s| - 1])
  }

  function Finish(st: Scan): Option<seq<string>> {
    if st.Failed? || st.inBracket then None else Some(st.fields + [st.cur])
  }

  method SplitFields(s: string) returns (r: Option<seq<string>>)
    ensures r == Finish(Scanned(Fresh([]), s))
  {
    var fields: seq<string>, cur: string := [], "";
    var inBracket, closed := false, false;
    var i := 0;
    while i < |s|
      invariant 0 <= i <= |s| && Scanned(Fresh([]), s[..i]) == Scan(fields, cur, inBracket, closed)
    {
      var c := s[i];
      assert s[..i + 1][..i] == s[..i];
      if c == '[' && !inBracket && cur == "" && !closed {
        inBracket := true;
      } else if c == ']' && inBracket {
        inBracket, closed := false, true;
      } else if c == ':' && !inBracket {
        fields, cur := fields + [cur], "";
        closed := false;
      } else if closed {
        FailsFrom(Fresh([]), s, i + 1);
        return None;
      } else {
        cur := cur + [c];
      }
      i := i + 1;
    }
    assert s[..i] == s;
    if inBracket {
      return None;
    }
    r := Some(fields + [cur]);
  }

  lemma {:induction false} Joined(st: Scan, a: string, b: string)
    ensures Scanned(st, a + b) == Scanned(Scanned(st, a), b)
    decreases |b|
  {
    hide Step;
    if b == "" {
      assert a + b == a;
    } else {
      assert (a + b)[..|a + b| - 1] == a + b[..|b| - 1];
      Joined(st, a, b[..|b| - 1]);
    }
  }

  lemma {:induction false} FailedStays(s: string)
    ensures Scanned(Failed, s) == Failed
  {
    if s != "" {
      FailedStays(s[..|s| - 1]);
    }
  }

  lemma FailsFrom(st: Scan, s: string, i: nat)
    requires i <= |s| && Scanned(st, s[..i]) == Failed
    ensures Scanned(st, s) == Failed
  {
    assert s == s[..i] + s[i..];
    Joined(st, s[..i], s[i..]);
    FailedStays(s[i..]);
  }

  /** Reading on never changes the fields so far, and only extends the one being read. */
  lemma {:induction false} Grows(st: Scan, s: string)
    requires st.Scan?
    ensures var r := Scanned(st, s);
      r.Scan? ==>
        var all := r.fields + [r.cur];
        |all| > |st.fields| && all[..|st.fields|] == st.fields && st.cur <= all[|st.fields|]
  {
    if s != "" {
      Grows(st, s[..|s| - 1]);
    }
  }

  predicate Has(s: string, c: char) { c in s }

  /** Plain characters are read as they are. */
  lemma {:induction false} ReadsPlain(fields: seq<string>, s: string)
    requires !Has(s, ':') && (s == "" || s[0] != '[')
    ensures Scanned(Fresh(fields), s) == Scan(fields, s, false, false)
  {
    if s != "" {
      ReadsPlain(fields, s[..|s| - 1]);
    }
  }

  /** Inside a bracket everything but its end is read as it is. */
  lemma {:induction false} ReadsBracketed(fields: seq<string>, cur: string, s: string)
    requires !Has(s, ']')
    ensures Scanned(Scan(fields, cur, true, false), s) == Scan(fields, cur + s, true, false)
  {
    if s != "" {
      ReadsBracketed(fields, cur, s[..|s| - 1]);
    } else {
      assert cur + s == cur;
    }
  }

  lemma OneStep(st: Scan, c: char)
    ensures Scanned(st, [c]) == Step(st, c)
  {
    hide Step;
    assert [c][..0] == "";
    assert Scanned(st, "") == st;
  }

  lemma FirstStep(st: Scan, s: string)
    requires s != ""
    ensures Scanned(st, s) == Scanned(Step(st, s[0]), s[1..])
  {
    hide Step, Scanned;
    OneStep(st, s[0]);
    Joined(st, [s[0]], s[1..]);
    assert s == [s[0]] + s[1..];
  }

  // ---------------------------------------------------------------------------------------
  // A printed field
  // ---------------------------------------------------------------------------------------

  function Bracket(host: string): string { if Has(host, ':') then "[" + host + "]" else host }

  /** Text that a printed field gives back. */
  predicate FieldOk(t: string) {
    if Has(t, ':') then !Has(t, ']') else t == "" || t[0] != '['
  }

  /** A bracket opened on `u`, which is followed by `rest`. */
  lemma OpenBracket(fields: seq<string>, u: string, rest: string)
    requires !Has(u, ']')
    ensures Scanned(Fresh(fields), ['['] + u + rest) == Scanned(Scan(fields, u, true, false), rest)
  {
    hide Scanned;
    OneStep(Fresh(fields), '[');
    Joined(Fresh(fields), ['['], u);
    Joined(Fresh(fields), ['['] + u, rest);
    ReadsBracketed(fields, "", u);
    assert "" + u == u;
  }

  lemma CloseBracket(fields: seq<string>, u: string, rest: string)
    requires !Has(u, ']')
    ensures Scanned(Fresh(fields), ['['] + u + [']'] + rest) == Scanned(Scan(fields, u, false, true), rest)
  {
    hide Scanned;
    assert ['['] + u + [']'] + rest == ['['] + u + ([']'] + rest);
    OpenBracket(fields, u, [']'] + rest);
    FirstStep(Scan(fields, u, true, false), [']'] + rest);
    assert ([']'] + rest)[1..] == rest;
  }

  /** A good field followed by a colon is read back. */
  lemma ReadsField(fields: seq<string>, t: string, rest: string)
    requires FieldOk(t)
    ensures Scanned(Fresh(fields), Bracket(t) + ":" + rest) == Scanned(Fresh(fields + [t]), rest)
  {
    hide Scanned;
    var tail := ":" + rest;
    assert tail[1..] == rest;
    assert Bracket(t) + ":" + rest == Bracket(t) + tail;
    if Has(t, ':') {
      assert Bracket(t) == ['['] + t + [']'];
      CloseBracket(fields, t, tail);
      FirstStep(Scan(fields, t, false, true), tail);
    } else {
      ReadsPlain(fields, t);
      Joined(Fresh(fields), t, tail);
      FirstStep(Scan(fields, t, false, false), tail);
    }
  }

  /** A good field at the end of the text is read back. */
  lemma ReadsLastField(fields: seq<string>, t: string)
    requires FieldOk(t)
    ensures Finish(Scanned(Fresh(fields), Bracket(t))) == Some(fields + [t])
  {
    hide Scanned;
    if Has(t, ':') {
      assert Bracket(t) == ['['] + t + [']'] + "";
      CloseBracket(fields, t, "");
      EmptyScan(Scan(fields, t, false, true));
    } else {
      ReadsPlain(fields, t);
    }
  }

  lemma EmptyScan(st: Scan)
    ensures Scanned(st, "") == st
  {
  }

  function Colons(fields: seq<string>): string {
    if fields == [] then ""
    else if |fields| == 1 then Bracket(fields[0])
    else Bracket(fields[0]) + ":" + Colons(fields[1..])
  }

  /** Splitting undoes joining with colons, whatever good texts the fields hold. */
  lemma {:induction false} SplitUndoesJoin(before: seq<string>, fields: seq<string>)
    requires fields != [] && forall i :: 0 <= i < |fields| ==> FieldOk(fields[i])
    ensures Finish(Scanned(Fresh(before), Colons(fields))) == Some(before + fields)
    decreases |fields|
  {
    hide Scanned, Bracket, FieldOk;
    if |fields| == 1 {
      ReadsLastField(before, fields[0]);
      assert before + fields == before + [fields[0]];
    } else {
      ReadsField(before, fields[0], Colons(fields[1..]));
      SplitUndoesJoin(before + [fields[0]], fields[1..]);
      assert before + fields == before + [fields[0]] + fields[1..];
    }
  }

  /** The position of the first occurrence, or the length. */
  function IndexOf(s: string, c: char): (i: nat)
    ensures i <= |s| && (i < |s| <==> Has(s, c)) && (i < |s| ==> s[i] == c) && !Has(s[..i], c)
  {
    if s == "" then 0 else if s[0] == c then 0 else
      var i := 1 + IndexOf(s[1..], c);
      assert s[..i] == [s[0]] + s[1..][..i - 1];
      i
  }

  /** The split, if there is one, has the fields so far and then one that is not `t`. */
  predicate Misread(r: Option<seq<string>>, fields: seq<string>, t: string) {
    r.Some? ==> |fields| < |r.value| && r.value[..|fields|] == fields && r.value[|fields|] != t
  }

  lemma ClosedEarly(fields: seq<string>, u: string, rest: string, t: string)
    requires rest != "" && u != t
    ensures Misread(Finish(Scanned(Scan(fields, u, false, true), rest)), fields, t)
  {
    var st := Scan(fields, u, false, true);
    FirstStep(st, rest);
    hide Scanned;
    if rest[0] == ':' {
      FieldStays(fields, u, rest[1..]);
    } else {
      FailedStays(rest[1..]);
    }
  }

  lemma FieldStays(fields: seq<string>, u: string, rest: string)
    ensures var r := Finish(Scanned(Fresh(fields + [u]), rest));
      r.Some? ==> |fields| < |r.value| && r.value[..|fields|] == fields && r.value[|fields|] == u
  {
    hide Scanned;
    Grows(Fresh(fields + [u]), rest);
    var r := Scanned(Fresh(fields + [u]), rest);
    if r.Scan? {
      var all := r.fields + [r.cur];
      var n := |fields|;
      assert all[..n + 1] == fields + [u];
      assert all[..n] == all[..n + 1][..n] && all[n] == all[..n + 1][n];
    }
  }

  lemma NeverClosed(fields: seq<string>, u: string, rest: string, t: string)
    requires !Has(u, ']') && !Has(t, ':')
    ensures Misread(Finish(Scanned(Fresh(fields), ['['] + u + ":" + rest)), fields, t)
  {
    hide Scanned;
    assert ['['] + u + ":" + rest == ['['] + (u + ":") + rest;
    OpenBracket(fields, u + ":", rest);
    var st := Scan(fields, u + ":", true, false);
    Grows(st, rest);
    var r := Scanned(st, rest);
    if r.Scan? {
      var all := r.fields + [r.cur];
      assert all[|fields|][|u|] == ':';
    }
  }

  lemma ClosesInside(fields: seq<string>, inner: string, more: string, t: string)
    requires Has(inner, ']') && more != "" && |inner| <= |t|
    ensures Misread(Finish(Scanned(Fresh(fields), ['['] + inner + more)), fields, t)
  {
    hide Scanned, Finish, Misread;
    var p := IndexOf(inner, ']');
    var u, tail := inner[..p], inner[p + 1..] + more;
    assert inner == u + [']'] + inner[p + 1..];
    assert ['['] + inner + more == ['['] + u + [']'] + tail;
    CloseBracket(fields, u, tail);
    ClosedEarly(fields, u, tail, t);
  }

  /** A raw field that opens a bracket is read as something shorter or holding a colon. */
  lemma RawBracket(fields: seq<string>, y: string, rest: string, t: string)
    requires y != "" && y[0] == '[' && |y| <= |t| && !Has(t, ':')
    ensures Misread(Finish(Scanned(Fresh(fields), y + ":" + rest)), fields, t)
  {
    hide Scanned, Finish, Misread;
    var inner := y[1..];
    assert y + ":" + rest == ['['] + inner + (":" + rest) == ['['] + inner + ":" + rest;
    if Has(inner, ']') {
      ClosesInside(fields, inner, ":" + rest, t);
    } else {
      NeverClosed(fields, inner, rest, t);
    }
  }

  /** A field that is not good is not read back, whatever follows. */
  lemma MisreadsField(fields: seq<string>, t: string, rest: string)
    requires !FieldOk(t)
    ensures Misread(Finish(Scanned(Fresh(fields), Bracket(t) + ":" + rest)), fields, t)
  {
    hide Scanned, Finish, Misread;
    if Has(t, ':') {
      assert Bracket(t) + ":" + rest == ['['] + t + ("]" + ":" + rest);
      ClosesInside(fields, t, "]" + ":" + rest, t);
    } else {
      RawBracket(fields, t, rest, t);
    }
  }

  // ---------------------------------------------------------------------------------------
  // Ports
  // ---------------------------------------------------------------------------------------

  predicate IsDigit(c: char) { '0' <= c <= '9' }

  predicate AllDigits(s: string) { forall i :: 0 <= i < |s| ==> IsDigit(s[i]) }

  function Decimal(n: nat): (s: string)
    ensures s != "" && AllDigits(s)
  {
    var digit := ('0' as int + n % 10) as char;
    if n < 10 then [digit] else Decimal(n / 10) + [digit]
  }

  function DigitsValue(s: string): nat
    requires AllDigits(s)
  {
    if s == "" then 0 else DigitsValue(s[..|s| - 1]) * 10 + (s[|s| - 1] as int - '0' as int)
  }

  /** `str::parse::<u16>`: an optional plus sign, then digits that fit. */
  function ParsePort(s: string): Option<nat> {
    var body := if s != "" && s[0] == '+' then s[1..] else s;
    if body == "" || !AllDigits(body) || DigitsValue(body) >= 0x1_0000 then None else Some(DigitsValue(body))
  }

  lemma {:induction false} DecimalReads(n: nat)
    ensures DigitsValue(Decimal(n)) == n
  {
    var digit := ('0' as int + n % 10) as char;
    if n < 10 {
      assert [digit][..0] == "";
      assert DigitsValue("") == 0;
    } else {
      DecimalReads(n / 10);
      assert Decimal(n)[..|Decimal(n)| - 1] == Decimal(n / 10);
    }
  }

  lemma PortRoundTrip(n: nat)
    requires n < 0x1_0000
    ensures ParsePort(Decimal(n)) == Some(n)
  {
    DecimalReads(n);
    hide Decimal, DigitsValue;
    assert IsDigit(Decimal(n)[0]);
  }

  lemma DecimalField(n: nat)
    ensures var d := Decimal(n); FieldOk(d) && Bracket(d) == d && !Has(d, '/') && d != DEFAULT_BIND && !Has(d, '.')
  {
    hide Decimal;
    var d := Decimal(n);
    assert IsDigit(d[0]);
    assert DEFAULT_BIND[3] == '.';
  }

  // ---------------------------------------------------------------------------------------
  // Parsing and printing
  // ---------------------------------------------------------------------------------------

  function KindText(k: Kind): string { match k case Tcp => "" case Udp => "udp/" case Tls => "tls/" }

  function Display(s: Spec): string {
    KindText(s.kind) + (if s.bind != DEFAULT_BIND then Bracket(s.bind) + ":" else "")
    + (Decimal(s.localPort) + ":" + Bracket(s.host) + ":" + Decimal(s.hostPort))
  }

  /** The kind and what follows it. */
  function ParseKind(s: string): Result<(Kind, string)> {
    var i := IndexOf(s, '/');
    if i == |s| then Ok((Tcp, s))
    else
      var rest := s[i + 1..];
      if s[..i] == "tcp" then Ok((Tcp, rest))
      else if s[..i] == "udp" then Ok((Udp, rest))
      else if s[..i] == "tls" then Ok((Tls, rest))
      else Err(UnknownKind)
  }

  function ParseFields(kind: Kind, fields: seq<string>): Result<Spec> {
    if |fields| == 3 then ParseParts(kind, DEFAULT_BIND, fields[0], fields[1], fields[2])
    else if |fields| == 4 then ParseParts(kind, fields[0], fields[1], fields[2], fields[3])
    else Err(WrongFields)
  }

  function ParseParts(kind: Kind, bind: string, port: string, host: string, hostPort: string): Result<Spec> {
    match ParsePort(hostPort)
    case None => Err(BadTargetPort)
    case Some(hp) =>
      if hp == 0 then Err(BadTargetPort)
      else if host == "" then Err(EmptyHost)
      else match ParsePort(port)
        case None => Err(BadLocalPort)
        case Some(lp) => if bind == "" then Err(EmptyBind) else Ok(Spec(kind, bind, lp, host, hp))
  }

  function ParseSpec(s: string): Result<Spec> {
    match ParseKind(s)
    case Err(e) => Err(e)
    case Ok((kind, rest)) =>
      match Finish(Scanned(Fresh([]), rest))
      case None => Err(Unterminated)
      case Some(fields) => ParseFields(kind, fields)
  }

  // ---------------------------------------------------------------------------------------
  // The round trip
  // ---------------------------------------------------------------------------------------

  /** The specifications that survive printing and parsing. */
  predicate Printable(s: Spec) {
    && s.bind != "" && s.host != "" && s.hostPort > 0 && FieldOk(s.bind) && FieldOk(s.host)
    && (s.kind.Tcp? ==> !Has(s.bind, '/') && !Has(s.host, '/'))
  }

  function FieldsOf(s: Spec): (fields: seq<string>)
    ensures 3 <= |fields| <= 4
  {
    (if s.bind != DEFAULT_BIND then [s.bind] else []) + [Decimal(s.localPort), s.host, Decimal(s.hostPort)]
  }

  lemma ThreeFields(p: string, host: string, hp: string)
    requires Bracket(p) == p && Bracket(hp) == hp
    ensures Colons([p, host, hp]) == p + ":" + Bracket(host) + ":" + hp
  {
    hide Bracket;
    var fs := [p, host, hp];
    assert fs[1..] == [host, hp] && fs[1..][1..] == [hp];
    assert Colons(fs[1..]) == Bracket(host) + ":" + Colons(fs[1..][1..]);
    assert Colons(fs) == p + ":" + (Bracket(host) + ":" + hp);
  }

  lemma DisplayJoins(s: Spec)
    ensures Display(s) == KindText(s.kind) + Colons(FieldsOf(s))
  {
    var p, hp := Decimal(s.localPort), Decimal(s.hostPort);
    DecimalField(s.localPort);
    DecimalField(s.hostPort);
    hide Decimal, Bracket, KindText;
    ThreeFields(p, s.host, hp);
    var three := [p, s.host, hp];
    if s.bind != DEFAULT_BIND {
      var four := FieldsOf(s);
      assert four[1..] == three;
      assert Colons(four) == Bracket(s.bind) + ":" + Colons(three);
    } else {
      assert FieldsOf(s) == three;
    }
  }

  lemma NoneBefore(s: string, c: char, i: nat)
    requires i <= |s| && !Has(s[..i], c)
    ensures forall j :: 0 <= j < i ==> s[j] != c
  {
    forall j | 0 <= j < i ensures s[j] != c {
      assert s[..i][j] == s[j];
    }
  }

  lemma IndexIs(s: string, c: char, i: nat)
    requires i < |s| && s[i] == c && !Has(s[..i], c)
    ensures IndexOf(s, c) == i
  {
    NoneBefore(s, c, i);
    NoneBefore(s, c, IndexOf(s, c));
    hide IndexOf;
  }

  /** A printed kind is read back, and a plain text without a slash is plain TCP. */
  lemma KindRoundTrip(kind: Kind, rest: string)
    requires kind.Tcp? ==> !Has(rest, '/')
    ensures ParseKind(KindText(kind) + rest) == Ok((kind, rest))
  {
    var s := KindText(kind) + rest;
    if kind.Tcp? {
      assert s == rest;
    } else {
      assert s[..3] == KindText(kind)[..3] && s[4..] == rest;
      IndexIs(s, '/', 3);
    }
  }

  lemma FieldsParse(s: Spec)
    requires IsSpec(s)
    ensures ParseFields(s.kind, FieldsOf(s)) == Ok(s) <==> s.bind != "" && s.host != "" && s.hostPort > 0
  {
    PortRoundTrip(s.localPort);
    PortRoundTrip(s.hostPort);
    hide Decimal, ParsePort;
  }

  lemma {:induction false} SlashInColons(fields: seq<string>)
    ensures Has(Colons(fields), '/') <==> exists i :: 0 <= i < |fields| && Has(fields[i], '/')
    decreases |fields|
  {
    if |fields| > 1 {
      SlashInColons(fields[1..]);
      assert forall i :: 0 <= i < |fields| - 1 ==> fields[1..][i] == fields[i + 1];
      assert forall i :: 0 < i < |fields| ==> fields[i] == fields[1..][i - 1];
      assert Has(Colons(fields), '/') <==> Has(fields[0], '/') || Has(Colons(fields[1..]), '/');
    }
  }

  lemma SlashInDisplay(s: Spec)
    ensures Has(Colons(FieldsOf(s)), '/') <==> Has(s.bind, '/') || Has(s.host, '/')
  {
    DecimalField(s.localPort);
    DecimalField(s.hostPort);
    SlashInColons(FieldsOf(s));
    hide Decimal, Colons;
    var fs := FieldsOf(s);
    assert s.host == fs[|fs| - 2];
    if s.bind != DEFAULT_BIND {
      assert fs[0] == s.bind;
    }
    assert !Has(DEFAULT_BIND, '/');
  }

  /** Printing and parsing gives back every printable specification. */
  lemma PrintableRoundTrips(s: Spec)
    requires IsSpec(s) && Printable(s)
    ensures ParseSpec(Display(s)) == Ok(s)
  {
    hide Decimal, Colons, Scanned, ParseFields, ParseKind, Display, FieldOk, KindText, Finish;
    DisplayJoins(s);
    SlashInDisplay(s);
    DecimalField(s.localPort);
    DecimalField(s.hostPort);
    FieldsParse(s);
    KindRoundTrip(s.kind, Colons(FieldsOf(s)));
    SplitUndoesJoin([], FieldsOf(s));
    assert [] + FieldsOf(s) == FieldsOf(s);
  }

  lemma ParsedKind(text: string, s: Spec)
    requires ParseSpec(text) == Ok(s)
    ensures ParseKind(text).Ok? && ParseKind(text).value.0 == s.kind
    ensures var r := Finish(Scanned(Fresh([]), ParseKind(text).value.1));
        r.Some? && ParseFields(s.kind, r.value) == Ok(s)
  {
    hide ParseKind, Scanned, Finish, ParsePort;
  }

  /** Without a printed kind, the first slash in an address is taken for the end of one. */
  lemma SlashMisleads(s: Spec)
    requires s.kind.Tcp? && Has(Colons(FieldsOf(s)), '/')
    ensures ParseSpec(Display(s)) != Ok(s)
  {
    hide *;
    var text := Colons(FieldsOf(s));
    TcpDisplay(s);
    KindBeforeSlash(text);
    var i := IndexOf(text, '/');
    if text[..i] == "tcp" {
      TcpBind(s, text, i);
    }
    if ParseSpec(text) == Ok(s) {
      ParsedKind(text, s);
    }
  }

  lemma TcpDisplay(s: Spec)
    requires s.kind.Tcp?
    ensures Display(s) == Colons(FieldsOf(s))
  {
    DisplayJoins(s);
    hide Display, Colons, FieldsOf;
    assert "" + Colons(FieldsOf(s)) == Colons(FieldsOf(s));
  }

  lemma ReachesColon(a: string, rest: string, n: nat)
    requires n <= |a + ":" + rest|
    ensures |a| < n ==> Has((a + ":" + rest)[..n], ':')
  {
    if |a| < n {
      assert (a + ":" + rest)[..n][|a|] == ':';
    }
  }

  lemma KindBeforeSlash(text: string)
    requires Has(text, '/')
    ensures var i := IndexOf(text, '/');
      forall rest :: ParseKind(text) == Ok((Tcp, rest)) ==> text[..i] == "tcp" && rest == text[i + 1..]
  {
    hide IndexOf;
  }

  lemma TcpBind(s: Spec, text: string, i: nat)
    requires s.kind.Tcp? && text == Colons(FieldsOf(s)) && i < |text| && text[i] == '/' && text[..i] == "tcp"
    ensures forall e :: Finish(Scanned(Fresh([]), text[i + 1..])) == Some(e) ==> ParseFields(Tcp, e) != Ok(s)
  {
    hide Colons, Decimal, Scanned, Finish, ParsePort, FieldsOf, FieldOk, Bracket;
    FirstFieldStarts(s, text);
    assert text[0] == text[..i][0] == 't' && i == 3;
    var rest := Colons(FieldsOf(s)[1..]);
    assert s.bind != DEFAULT_BIND && !Has(s.bind, ':') && text == s.bind + ":" + rest;
    assert text[..4] == "tcp/";
    ReachesColon(s.bind, rest, 4);
    var y := s.bind[4..];
    assert text[4..] == y + ":" + rest;
    BindLost(s.bind, y, rest);
  }

  /** Without its front a bind is not read as itself. */
  lemma BindLost(bind: string, y: string, rest: string)
    requires |y| < |bind| && !Has(y, ':') && !Has(bind, ':')
    ensures Misread(Finish(Scanned(Fresh([]), y + ":" + rest)), [], bind)
  {
    hide Scanned, Finish;
    if FieldOk(y) {
      ReadsField([], y, rest);
      FieldStays([], y, rest);
      assert [] + [y] == [y];
    } else {
      RawBracket([], y, rest, bind);
    }
  }

  lemma FirstFieldStarts(s: Spec, text: string)
    requires text == Colons(FieldsOf(s))
    ensures text == Bracket(FieldsOf(s)[0]) + ":" + Colons(FieldsOf(s)[1..])
    ensures text != "" && text[0] == 't' ==>
      s.bind != DEFAULT_BIND && !Has(s.bind, ':') && text == s.bind + ":" + Colons(FieldsOf(s)[1..])
  {
    DecimalField(s.localPort);
    hide Decimal;
    var p := Decimal(s.localPort);
    assert IsDigit(p[0]);
    if s.bind == DEFAULT_BIND {
      assert FieldsOf(s)[0] == p;
      assert text[0] == p[0];
    } else {
      assert FieldsOf(s)[0] == s.bind;
    }
  }

  lemma BadBind(s: Spec)
    requires !FieldOk(s.bind)
    ensures Misread(Finish(Scanned(Fresh([]), Colons(FieldsOf(s)))), [], s.bind) && s.bind != DEFAULT_BIND
  {
    FirstFieldStarts(s, Colons(FieldsOf(s)));
    hide Decimal, Colons, Scanned, Finish, Misread;
    assert FieldOk(DEFAULT_BIND);
    MisreadsField([], s.bind, Colons(FieldsOf(s)[1..]));
  }

  /** The fields that stand before the host. */
  function BeforeHost(s: Spec): seq<string> {
    if s.bind != DEFAULT_BIND then [s.bind, Decimal(s.localPort)] else [Decimal(s.localPort)]
  }

  lemma BadHost(s: Spec)
    requires FieldOk(s.bind) && !FieldOk(s.host)
    ensures Misread(Finish(Scanned(Fresh([]), Colons(FieldsOf(s)))), BeforeHost(s), s.host)
  {
    var p, hp := Decimal(s.localPort), Decimal(s.hostPort);
    DecimalField(s.localPort);
    DecimalField(s.hostPort);
    FirstFieldStarts(s, Colons(FieldsOf(s)));
    ThreeFields(p, s.host, hp);
    hide Decimal, Colons, Scanned, Finish, Misread, FieldOk;
    var rest := Bracket(s.host) + ":" + hp;
    var three := [p, s.host, hp];
    assert Colons(three) == p + ":" + rest;
    if s.bind != DEFAULT_BIND {
      assert FieldsOf(s)[1..] == three;
      ReadsField([], s.bind, Colons(three));
      assert [] + [s.bind] == [s.bind] && [s.bind] + [p] == [s.bind, p];
      ReadsField([s.bind], p, rest);
      MisreadsField([s.bind, p], s.host, hp);
    } else {
      assert FieldsOf(s) == three;
      assert [] + [p] == [p];
      ReadsField([], p, rest);
      MisreadsField([p], s.host, hp);
    }
  }

  lemma MisreadsFail(s: Spec, e: seq<string>)
    requires (Misread(Some(e), [], s.bind) && s.bind != DEFAULT_BIND) || Misread(Some(e), BeforeHost(s), s.host)
    ensures ParseFields(s.kind, e) != Ok(s)
  {
    DecimalField(s.localPort);
    hide Decimal, ParsePort;
    if Misread(Some(e), BeforeHost(s), s.host) {
      assert e[..|BeforeHost(s)|][0] == e[0] == BeforeHost(s)[0];
    }
  }

  /** A specification survives printing and parsing exactly when it is printable. */
  lemma RoundTripExactly(s: Spec)
    requires IsSpec(s)
    ensures ParseSpec(Display(s)) == Ok(s) <==> Printable(s)
  {
    if Printable(s) {
      PrintableRoundTrips(s);
    } else {
      SlashInDisplay(s);
      if s.kind.Tcp? && Has(Colons(FieldsOf(s)), '/') {
        SlashMisleads(s);
      } else {
        NotPrintable(s);
      }
    }
  }

  lemma NotPrintable(s: Spec)
    requires IsSpec(s) && !Printable(s) && (s.kind.Tcp? ==> !Has(Colons(FieldsOf(s)), '/'))
    ensures ParseSpec(Display(s)) != Ok(s)
  {
    DisplayJoins(s);
    SlashInDisplay(s);
    hide Decimal, Colons, Scanned, Display, ParseKind, Misread, ParsePort, FieldOk;
    KindRoundTrip(s.kind, Colons(FieldsOf(s)));
    var r := Finish(Scanned(Fresh([]), Colons(FieldsOf(s))));
    if r.Some? {
      if !FieldOk(s.bind) {
        BadBind(s);
        MisreadsFail(s, r.value);
      } else if !FieldOk(s.host) {
        BadHost(s);
        MisreadsFail(s, r.value);
      }
    }
  }

  // ---------------------------------------------------------------------------------------
  // Other ways to write the same
  // ---------------------------------------------------------------------------------------

  function OfKind(r: Result<Spec>, kind: Kind): Result<Spec> {
    match r case Ok(s) => Ok(s.(kind := kind)) case Err(e) => Err(e)
  }

  lemma PrefixRead(kind: string, t: string)
    requires !Has(kind, '/')
    ensures IndexOf(kind + "/" + t, '/') == |kind| && (kind + "/" + t)[..|kind|] == kind
    ensures (kind + "/" + t)[|kind| + 1..] == t
  {
    hide IndexOf;
    var s := kind + "/" + t;
    assert s[..|kind|] == kind;
    IndexIs(s, '/', |kind|);
  }

  /** "tcp/" changes nothing, "udp/" and "tls/" change the kind alone, and no other kind is known. */
  lemma KindPrefixes(t: string)
    ensures !Has(t, '/') ==> ParseSpec("tcp" + "/" + t) == ParseSpec(t)
    ensures ParseSpec("tcp" + "/" + t) == OfKind(ParseSpec("tcp" + "/" + t), Tcp)
    ensures ParseSpec("udp" + "/" + t) == OfKind(ParseSpec("tcp" + "/" + t), Udp)
    ensures ParseSpec("tls" + "/" + t) == OfKind(ParseSpec("tcp" + "/" + t), Tls)
  {
    hide ParseKind, Scanned, Finish, ParseFields;
    KindRead("tcp", Tcp, t);
    KindRead("udp", Udp, t);
    KindRead("tls", Tls, t);
    if !Has(t, '/') {
      PlainIsTcp(t);
    }
    forall fields, kind ensures ParseFields(kind, fields) == OfKind(ParseFields(Tcp, fields), kind) {
      FieldsOfKind(kind, fields);
    }
  }

  lemma KindRead(name: string, kind: Kind, t: string)
    requires (name == "tcp" && kind == Tcp) || (name == "udp" && kind == Udp) || (name == "tls" && kind == Tls)
    ensures ParseKind(name + "/" + t) == Ok((kind, t))
  {
    hide IndexOf;
    PrefixRead(name, t);
  }

  lemma PlainIsTcp(t: string)
    requires !Has(t, '/')
    ensures ParseKind(t) == Ok((Tcp, t))
  {
    NoSlash(t);
  }

  lemma FieldsOfKind(kind: Kind, fields: seq<string>)
    ensures ParseFields(kind, fields) == OfKind(ParseFields(Tcp, fields), kind)
  {
    hide ParsePort;
  }

  lemma NoSlash(t: string)
    requires !Has(t, '/')
    ensures IndexOf(t, '/') == |t|
  {
  }

  lemma UnknownKinds(kind: string, t: string)
    requires !Has(kind, '/') && kind != "tcp" && kind != "udp" && kind != "tls"
    ensures ParseSpec(kind + "/" + t) == Err(UnknownKind)
  {
    hide IndexOf, Scanned, Finish, ParsePort;
    PrefixRead(kind, t);
  }

  function After(f: string, st: Scan): Scan {
    if st.Failed? then Failed else st.(fields := [f] + st.fields)
  }

  /** A field already read changes nothing about how the rest is read. */
  lemma {:induction false} ReadAfter(f: string, st: Scan, s: string)
    ensures Scanned(After(f, st), s) == After(f, Scanned(st, s))
  {
    if s != "" {
      ReadAfter(f, st, s[..|s| - 1]);
    }
  }

  /** Three fields are four with the loopback address in front. */
  lemma LoopbackIsTheDefault(t: string)
    requires !Has(t, '/')
    ensures ParseSpec(t).Ok? && |Finish(Scanned(Fresh([]), t)).value| == 3 ==>
      ParseSpec("127.0.0.1" + ":" + t) == ParseSpec(t) && ParseSpec(t).value.bind == "127.0.0.1"
  {
    hide IndexOf, Scanned, ParsePort;
    var s := "127.0.0.1" + ":" + t;
    NoSlash(t);
    NoSlash(s);
    Joined(Fresh([]), "127.0.0.1" + ":", t);
    LoopbackRead();
    ReadAfter("127.0.0.1", Fresh([]), t);
  }

  lemma LoopbackRead()
    ensures Scanned(Fresh([]), "127.0.0.1" + ":") == After("127.0.0.1", Fresh([]))
  {
    hide Scanned;
    ReadsPlain([], "127.0.0.1");
    Joined(Fresh([]), "127.0.0.1", ":");
    OneColon(Scan([], "127.0.0.1", false, false));
    assert [] + ["127.0.0.1"] == ["127.0.0.1"] + [];
  }

  lemma OneColon(st: Scan)
    ensures Scanned(st, ":") == Step(st, ':')
  {
    assert ":"[..0] == "" && Scanned(st, "") == st;
  }

  function Zeros(k: nat): string { seq(k, _ => '0') }

  lemma {:induction false} DigitsAre(s: string) returns (k: nat)
    requires AllDigits(s) && s != ""
    ensures s == Zeros(k) + Decimal(DigitsValue(s))
  {
    var init, last := s[..|s| - 1], s[|s| - 1];
    var d := last as int - '0' as int;
    assert s == init + [last];
    if init == "" {
      k := 0;
      assert DigitsValue(init) == 0;
    } else {
      k := DigitsAre(init);
      var v := DigitsValue(init);
      assert (v * 10 + d) / 10 == v && (v * 10 + d) % 10 == d;
      if v == 0 {
        assert Zeros(k) + "0" == Zeros(k + 1);
        k := k + 1;
      }
    }
  }

  lemma {:induction false} ZerosCountNothing(k: nat, t: string)
    requires AllDigits(t)
    ensures AllDigits(Zeros(k) + t) && DigitsValue(Zeros(k) + t) == DigitsValue(t)
    decreases |t|, k
  {
    var s := Zeros(k) + t;
    if t != "" {
      ZerosCountNothing(k, t[..|t| - 1]);
      assert s[..|s| - 1] == Zeros(k) + t[..|t| - 1];
    } else if k > 0 {
      ZerosCountNothing(k - 1, t);
      assert s[..|s| - 1] == Zeros(k - 1) + t;
    }
  }

  /** The texts of a port: its decimal numeral after any zeros, with or without a plus sign. */
  predicate WritesPort(s: string, n: nat, plus: string, k: nat) {
    (plus == "" || plus == "+") && s == plus + Zeros(k) + Decimal(n)
  }

  /** Exactly these texts are read as a port, and only up to 65535. */
  lemma PortTexts(s: string, n: nat)
    ensures ParsePort(s) == Some(n) <==> n <= 65535 && exists plus, k: nat :: WritesPort(s, n, plus, k)
  {
    hide WritesPort, ParsePort;
    if ParsePort(s) == Some(n) {
      var plus, k := PortWritten(s, n);
    }
    if plus, k: nat :| n <= 65535 && WritesPort(s, n, plus, k) {
      PortReads(s, n, plus, k);
    }
  }

  lemma PortWritten(s: string, n: nat) returns (plus: string, k: nat)
    requires ParsePort(s) == Some(n)
    ensures n <= 65535 && WritesPort(s, n, plus, k)
  {
    hide Decimal, DigitsValue, Zeros;
    plus := if s[0] == '+' then "+" else "";
    var body := if s[0] == '+' then s[1..] else s;
    k := DigitsAre(body);
    assert s == plus + body;
    SumOfThree(plus, Zeros(k), Decimal(n));
  }

  lemma SumOfThree(a: string, b: string, c: string)
    ensures a + (b + c) == a + b + c
  {
  }

  lemma PortReads(s: string, n: nat, plus: string, k: nat)
    requires n <= 65535 && WritesPort(s, n, plus, k)
    ensures ParsePort(s) == Some(n)
  {
    hide Decimal, DigitsValue, Zeros;
    var body := Zeros(k) + Decimal(n);
    ZerosCountNothing(k, Decimal(n));
    DecimalReads(n);
    assert s == plus + body;
    assert IsDigit(body[0]);
    if plus == "+" {
      assert s[1..] == body;
    } else {
      assert s == body;
    }
  }
}
