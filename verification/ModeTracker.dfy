/**
  The driver's mode tracker: a byte-at-a-time scanner of the escape sequences that change
  terminal modes, and the 16-bit mode word the browser unpacks again.
*/
module ModeTracker {
  import opened Common
  import opened Bytes

  const PARAM_MAX: nat := 65535

  /** A control sequence being read; at most eight parameters are kept. */
  datatype Csi = Csi(private: bool, bang: bool, space: bool, params: seq<nat>, current: Option<nat>)

  datatype ParseState = Ground | Escape | InCsi(csi: Csi)

  datatype Modes = Modes(
    appCursor: bool, appKeypad: bool, altScreen: bool, mouseMode: nat,
    mouseEncoding: nat, cursorStyle: nat, syncedOutput: bool)

  datatype Tracker = Tracker(modes: Modes, parse: ParseState)

  const NO_MODES := Modes(false, false, false, 0, 0, 0, false)
  const EMPTY_CSI := Csi(false, false, false, [], None)

  // ---------------------------------------------------------------------------------------
  // Scanning
  // ---------------------------------------------------------------------------------------

  /** What a completed sequence asks for. */
  datatype Command = FormFeed | Keypad(on: bool) | FullReset | Control(csi: Csi, final: Byte)

  function PushCurrent(csi: Csi): Csi {
    var value := if csi.current.Some? then csi.current.value else 0;
    csi.(params := if |csi.params| < 8 then csi.params + [value] else csi.params, current := None)
  }

  function Cap(n: nat): nat { if n <= PARAM_MAX then n else PARAM_MAX }

  /** `saturating_mul(10).saturating_add(digit)`. */
  function AddDigit(current: Option<nat>, digit: nat): nat {
    Cap(Cap((if current.Some? then current.value else 0) * 10) + digit)
  }

  function ScanCsi(csi: Csi, byte: Byte): (ParseState, Option<Command>) {
    if byte == 0x1B then (Escape, None)
    else if byte == '?' as int && !csi.private && csi.params == [] && csi.current.None? && !csi.bang then
      (InCsi(csi.(private := true)), None)
    else if '0' as int <= byte <= '9' as int then
      (InCsi(csi.(current := Some(AddDigit(csi.current, byte - '0' as int)))), None)
    else if byte == ';' as int then (InCsi(PushCurrent(csi)), None)
    else if byte == '!' as int then (InCsi(csi.(bang := true)), None)
    else if byte == ' ' as int then (InCsi(csi.(space := true)), None)
    else if 0x40 <= byte <= 0x7E then (Ground, Some(Control(PushCurrent(csi), byte)))
    else (Ground, None)
  }

  function Scan(p: ParseState, byte: Byte): (ParseState, Option<Command>) {
    match p
    case Ground =>
      if byte == 0x0C then (Ground, Some(FormFeed)) else if byte == 0x1B then (Escape, None) else (Ground, None)
    case Escape =>
      if byte == '[' as int then (InCsi(EMPTY_CSI), None)
      else if byte == '=' as int then (Ground, Some(Keypad(true)))
      else if byte == '>' as int then (Ground, Some(Keypad(false)))
      else if byte == 'c' as int then (Ground, Some(FullReset))
      else if byte == 0x1B then (Escape, None)
      else (Ground, None)
    case InCsi(csi) => ScanCsi(csi, byte)
  }

  // ---------------------------------------------------------------------------------------
  // Obeying
  // ---------------------------------------------------------------------------------------

  function MouseModeOf(param: nat): nat {
    match param case 9 => 1 case 1000 => 2 case 1002 => 3 case 1003 => 4 case _ => 0
  }

  function MouseEncodingOf(param: nat): nat {
    match param case 1005 => 1 case 1006 => 2 case 1016 => 3 case _ => 0
  }

  /** A register takes a value when it is set and drops it only when that value is reset. */
  function Update(register: nat, value: nat, set_: bool): nat {
    if value == 0 then register else if set_ then value else if register == value then 0 else register
  }

  function ApplyParam(m: Modes, param: nat, set_: bool): Modes {
    match param
    case 1 => m.(appCursor := set_)
    case 47 => m.(altScreen := set_)
    case 1047 => m.(altScreen := set_)
    case 1049 => m.(altScreen := set_)
    case 2026 => m.(syncedOutput := set_)
    case _ =>
      m.(mouseMode := Update(m.mouseMode, MouseModeOf(param), set_),
         mouseEncoding := Update(m.mouseEncoding, MouseEncodingOf(param), set_))
  }

  function ApplyParams(m: Modes, params: seq<nat>, set_: bool): Modes {
    if params == [] then m else ApplyParam(ApplyParams(m, params[..|params| - 1], set_), params[|params| - 1], set_)
  }

  /** The modes after a control sequence, and whether the used rows are reset. */
  function HandleCsi(m: Modes, csi: Csi, final: Byte): (Modes, bool) {
    if csi.bang && final == 'p' as int then (m.(appCursor := false, appKeypad := false, cursorStyle := 0), true)
    else if csi.space && final == 'q' as int then
      var style := if csi.params == [] then 0 else csi.params[0];
      (m.(cursorStyle := if style <= 6 then style else 0), false)
    else if !csi.private && (final == 'J' as int || final == 'K' as int)
        && (csi.params == [] || 2 in csi.params || 3 in csi.params) then
      (m, true)
    else if final == 'h' as int || final == 'l' as int then
      (if csi.private then ApplyParams(m, csi.params, final == 'h' as int) else m, false)
    else (m, false)
  }

  function Obey(m: Modes, c: Command): (Modes, bool) {
    match c
    case FormFeed => (m, true)
    case Keypad(on) => (m.(appKeypad := on), false)
    case FullReset => (NO_MODES, true)
    case Control(csi, final) => HandleCsi(m, csi, final)
  }

  function Step(t: Tracker, byte: Byte): (Tracker, bool) {
    var (p, c) := Scan(t.parse, byte);
    match c
    case None => (Tracker(t.modes, p), false)
    case Some(c) => var (m, reset) := Obey(t.modes, c); (Tracker(m, p), reset)
  }

  function ProcessBytes(t: Tracker, data: seq<Byte>): (Tracker, bool) {
    if data == [] then (t, false)
    else
      var (t1, r1) := ProcessBytes(t, data[..|data| - 1]);
      var (t2, r2) := Step(t1, data[|data| - 1]);
      (t2, r1 || r2)
  }

  /** The tracker object; `process` returns whether the used rows are to be reset. */
  class ModeTracker {
    var modes: Modes
    var parse: ParseState

    function View(): Tracker
      reads this
    {
      Tracker(modes, parse)
    }

    constructor ()
      ensures View() == Tracker(NO_MODES, Ground)
    {
      modes, parse := NO_MODES, Ground;
    }

    method Process(data: seq<Byte>) returns (reset: bool)
      modifies this
      ensures (View(), reset) == ProcessBytes(old(View()), data)
    {
      hide Scan;
      reset := false;
      var i := 0;
      while i < |data|
        invariant 0 <= i <= |data|
        invariant (View(), reset) == ProcessBytes(old(View()), data[..i])
      {
        assert data[..i + 1][..i] == data[..i];
        var (p, c) := Scan(parse, data[i]);
        match c {
          case None =>
          case Some(Control(csi, final)) =>
            var r := HandleControl(csi, final);
            reset := reset || r;
          case Some(c) =>
            var (m, r) := Obey(modes, c);
            modes := m;
            reset := reset || r;
        }
        parse := p;
        i := i + 1;
      }
      assert data[..i] == data;
    }

    method HandleControl(csi: Csi, final: Byte) returns (reset: bool)
      modifies this`modes
      ensures (modes, reset) == HandleCsi(old(modes), csi, final)
    {
      if csi.bang && final == 'p' as int {
        modes := modes.(appCursor := false, appKeypad := false, cursorStyle := 0);
        return true;
      }
      if csi.space && final == 'q' as int {
        var style := if csi.params == [] then 0 else csi.params[0];
        modes := modes.(cursorStyle := if style <= 6 then style else 0);
        return false;
      }
      if !csi.private && (final == 'J' as int || final == 'K' as int) {
        if csi.params == [] || 2 in csi.params || 3 in csi.params {
          return true;
        }
      }
      if final != 'h' as int && final != 'l' as int {
        return false;
      }
      var set_ := final == 'h' as int;
      var i := 0;
      while i < |csi.params|
        invariant 0 <= i <= |csi.params|
        invariant modes == if csi.private then ApplyParams(old(modes), csi.params[..i], set_) else old(modes)
      {
        hide ApplyParam;
        assert csi.params[..i + 1][..i] == csi.params[..i];
        if csi.private {
          modes := ApplyParam(modes, csi.params[i], set_);
        }
        i := i + 1;
      }
      assert csi.params[..i] == csi.params;
      reset := false;
    }
  }

  // ---------------------------------------------------------------------------------------
  // Chunking
  // ---------------------------------------------------------------------------------------

  /** How a stream is cut into chunks changes neither the state nor the combined action. */
  lemma {:induction false} SplitIndependent(t: Tracker, a: seq<Byte>, b: seq<Byte>)
    ensures var (t1, r1) := ProcessBytes(t, a); var (t2, r2) := ProcessBytes(t1, b);
      ProcessBytes(t, a + b) == (t2, r1 || r2)
    decreases |b|
  {
    hide Step;
    if b == [] {
      assert a + b == a;
    } else {
      assert (a + b)[..|a + b| - 1] == a + b[..|b| - 1];
      SplitIndependent(t, a, b[..|b| - 1]);
    }
  }

  function Joined(chunks: seq<seq<Byte>>): seq<Byte> {
    if chunks == [] then [] else Joined(chunks[..|chunks| - 1]) + chunks[|chunks| - 1]
  }

  function ProcessChunks(t: Tracker, chunks: seq<seq<Byte>>): (Tracker, bool) {
    if chunks == [] then (t, false)
    else
      var (t1, r1) := ProcessChunks(t, chunks[..|chunks| - 1]);
      var (t2, r2) := ProcessBytes(t1, chunks[|chunks| - 1]);
      (t2, r1 || r2)
  }

  lemma {:induction false} ChunkingIndependent(t: Tracker, chunks: seq<seq<Byte>>)
    ensures ProcessChunks(t, chunks) == ProcessBytes(t, Joined(chunks))
    decreases |chunks|
  {
    hide Step;
    if chunks != [] {
      ChunkingIndependent(t, chunks[..|chunks| - 1]);
      SplitIndependent(t, Joined(chunks[..|chunks| - 1]), chunks[|chunks| - 1]);
    }
  }

  // ---------------------------------------------------------------------------------------
  // Commands
  // ---------------------------------------------------------------------------------------

  /** The commands a stream contains, from a given scanner state. */
  function Commands(p: ParseState, data: seq<Byte>): (ParseState, seq<Command>) {
    if data == [] then (p, [])
    else
      var (p1, cs) := Commands(p, data[..|data| - 1]);
      var (p2, c) := Scan(p1, data[|data| - 1]);
      (p2, if c.Some? then cs + [c.value] else cs)
  }

  function ObeyAll(m: Modes, cs: seq<Command>): (Modes, bool) {
    if cs == [] then (m, false)
    else
      var (m1, r1) := ObeyAll(m, cs[..|cs| - 1]);
      var (m2, r2) := Obey(m1, cs[|cs| - 1]);
      (m2, r1 || r2)
  }

  /** Processing is scanning for commands and obeying them in order. */
  lemma {:induction false} ProcessObeysCommands(t: Tracker, data: seq<Byte>)
    ensures var (p, cs) := Commands(t.parse, data); var (m, reset) := ObeyAll(t.modes, cs);
      ProcessBytes(t, data) == (Tracker(m, p), reset)
    decreases |data|
  {
    hide Scan, Obey;
    if data != [] {
      ProcessObeysCommands(t, data[..|data| - 1]);
      var (p1, cs) := Commands(t.parse, data[..|data| - 1]);
      var (p2, c) := Scan(p1, data[|data| - 1]);
      if c.Some? {
        assert (cs + [c.value])[..|cs|] == cs;
      }
    }
  }

  predicate CsiInRange(csi: Csi) {
    && |csi.params| <= 8 && (forall i :: 0 <= i < |csi.params| ==> csi.params[i] <= PARAM_MAX)
    && (csi.current.Some? ==> csi.current.value <= PARAM_MAX)
  }

  /** A handled sequence always has a parameter: the empty list the handler tests for never comes. */
  predicate HandledInRange(c: Command) {
    c.Control? ==> CsiInRange(c.csi) && c.csi.params != []
  }

  lemma {:induction false} CommandsInRange(p: ParseState, data: seq<Byte>)
    requires p.InCsi? ==> CsiInRange(p.csi)
    ensures var (p', cs) := Commands(p, data);
      (p'.InCsi? ==> CsiInRange(p'.csi)) && forall i :: 0 <= i < |cs| ==> HandledInRange(cs[i])
    decreases |data|
  {
    if data != [] {
      CommandsInRange(p, data[..|data| - 1]);
    }
  }

  // ---------------------------------------------------------------------------------------
  // Printed control sequences
  // ---------------------------------------------------------------------------------------

  type Digit = d: int | 0 <= d <= 9

  function Value(digits: seq<Digit>): nat {
    if digits == [] then 0 else Value(digits[..|digits| - 1]) * 10 + digits[|digits| - 1]
  }

  function PrintDigits(digits: seq<Digit>): seq<Byte> {
    if digits == [] then [] else PrintDigits(digits[..|digits| - 1]) + ['0' as int + digits[|digits| - 1]]
  }

  /** Parameters separated by semicolons; a parameter may have no digits. */
  function PrintParams(params: seq<seq<Digit>>): seq<Byte> {
    if params == [] then []
    else if |params| == 1 then PrintDigits(params[0])
    else PrintParams(params[..|params| - 1]) + [';' as int] + PrintDigits(params[|params| - 1])
  }

  function PrintCsi(private: bool, params: seq<seq<Digit>>, final: Byte): seq<Byte> {
    [0x1B, '[' as int] + (if private then ['?' as int] else []) + PrintParams(params) + [final]
  }

  /** The values of the first eight parameters, each capped. */
  function Kept(params: seq<seq<Digit>>): seq<nat> {
    seq(if |params| <= 8 then |params| else 8, i requires 0 <= i < |params| => Cap(Value(params[i])))
  }

  predicate IsFinal(byte: Byte) { 0x40 <= byte <= 0x7E }

  function CurrentOf(digits: seq<Digit>): Option<nat> { if digits == [] then None else Some(Cap(Value(digits))) }

  lemma CapStep(v: nat, d: Digit)
    ensures Cap(Cap(Cap(v) * 10) + d) == Cap(v * 10 + d)
  {
  }

  const NoCommands: seq<Command> := []

  lemma {:induction false} CommandsConcat(p: ParseState, a: seq<Byte>, b: seq<Byte>)
    ensures var (p1, c1) := Commands(p, a); var (p2, c2) := Commands(p1, b);
      Commands(p, a + b) == (p2, c1 + c2)
    decreases |b|
  {
    hide Scan;
    var (p1, c1) := Commands(p, a);
    if b == [] {
      assert a + b == a && c1 + [] == c1;
      assert Commands(p1, b) == (p1, []);
    } else {
      assert (a + b)[..|a + b| - 1] == a + b[..|b| - 1];
      CommandsConcat(p, a, b[..|b| - 1]);
      var (p2, c2) := Commands(p1, b[..|b| - 1]);
      var c := Scan(p2, b[|b| - 1]).1;
      if c.Some? {
        assert (c1 + c2) + [c.value] == c1 + (c2 + [c.value]);
      }
    }
  }

  lemma OneByte(p: ParseState, byte: Byte)
    ensures var (p', c) := Scan(p, byte); Commands(p, [byte]) == (p', if c.Some? then [c.value] else [])
  {
    hide Scan;
    assert [byte][..0] == [];
    assert Commands(p, []) == (p, []);
    var c := Scan(p, byte).1;
    if c.Some? {
      assert [] + [c.value] == [c.value];
    }
  }

  lemma {:induction false} ScanDigits(csi: Csi, digits: seq<Digit>)
    requires csi.current.None?
    ensures Commands(InCsi(csi), PrintDigits(digits)) == (InCsi(csi.(current := CurrentOf(digits))), [])
    decreases |digits|
  {
    hide Scan, Cap;
    if digits != [] {
      var init, last := digits[..|digits| - 1], digits[|digits| - 1];
      ScanDigits(csi, init);
      CapStep(Value(init), last);
      CapZero();
      var bytes := PrintDigits(digits);
      assert bytes[..|bytes| - 1] == PrintDigits(init);
      ScanOneDigit(csi.(current := CurrentOf(init)), last);
    }
  }

  lemma ScanOneDigit(csi: Csi, d: Digit)
    ensures Scan(InCsi(csi), '0' as int + d) == (InCsi(csi.(current := Some(AddDigit(csi.current, d)))), None)
  {
  }

  /** What the scanner holds after the parameters: all but the last pushed, the last current. */
  function Held(private: bool, params: seq<seq<Digit>>): Csi
    requires params != []
  {
    Csi(private, false, false, Kept(params[..|params| - 1]), CurrentOf(params[|params| - 1]))
  }

  lemma PushHeld(private: bool, params: seq<seq<Digit>>)
    requires params != []
    ensures PushCurrent(Held(private, params)) == Csi(private, false, false, Kept(params), None)
  {
    hide Value, Cap;
    var last := params[|params| - 1];
    CapZero();
    var init := Kept(params[..|params| - 1]);
    assert forall i :: 0 <= i < |init| ==> init[i] == Cap(Value(params[i]));
    assert Kept(params) == if |init| < 8 then init + [Cap(Value(last))] else init;
  }

  lemma CapZero()
    ensures Value([]) == 0 && Cap(0) == 0
  {
  }

  lemma {:induction false} ScanParams(private: bool, params: seq<seq<Digit>>)
    requires params != []
    ensures Commands(InCsi(EMPTY_CSI.(private := private)), PrintParams(params)) == (InCsi(Held(private, params)), [])
    decreases |params|
  {
    hide Scan, Commands;
    var start := InCsi(EMPTY_CSI.(private := private));
    var last := params[|params| - 1];
    if |params| == 1 {
      ScanDigits(EMPTY_CSI.(private := private), last);
      assert Kept([]) == [] && params[..0] == [];
    } else {
      var init := params[..|params| - 1];
      ScanParams(private, init);
      PushHeld(private, init);
      var pushed := Csi(private, false, false, Kept(init), None);
      CommandsConcat(start, PrintParams(init), [';' as int]);
      OneByte(InCsi(Held(private, init)), ';' as int);
      ScanSemicolon(Held(private, init));
      CommandsConcat(start, PrintParams(init) + [';' as int], PrintDigits(last));
      ScanDigits(pushed, last);
      OneMore(FormFeed);
    }
  }

  lemma ScanSemicolon(csi: Csi)
    ensures Scan(InCsi(csi), ';' as int) == (InCsi(PushCurrent(csi)), None)
  {
  }

  lemma ScanIntroducer(private: bool)
    ensures Commands(Ground, [0x1B, '[' as int] + (if private then ['?' as int] else []))
         == (InCsi(EMPTY_CSI.(private := private)), [])
  {
    hide Commands;
    OneMore(FormFeed);
    var bytes := [0x1B, '[' as int];
    OneByte(Ground, 0x1B);
    OneByte(Escape, '[' as int);
    CommandsConcat(Ground, [0x1B], ['[' as int]);
    assert [0x1B] + ['[' as int] == bytes;
    if private {
      OneByte(InCsi(EMPTY_CSI), '?' as int);
      CommandsConcat(Ground, bytes, ['?' as int]);
    } else {
      assert bytes + [] == bytes;
    }
  }

  lemma ScanFinal(csi: Csi, final: Byte)
    requires IsFinal(final)
    ensures Scan(InCsi(csi), final) == (Ground, Some(Control(PushCurrent(csi), final)))
  {
  }

  /** A printed control sequence of any length is one command, with its first eight parameters, each capped. */
  lemma PrintedIsCommand(private: bool, params: seq<seq<Digit>>, final: Byte)
    requires params != [] && IsFinal(final)
    ensures Commands(Ground, PrintCsi(private, params, final))
         == (Ground, [Control(Csi(private, false, false, Kept(params), None), final)])
  {
    hide Scan, Held, Kept, Commands;
    var intro := [0x1B, '[' as int] + (if private then ['?' as int] else []);
    ScanIntroducer(private);
    ScanParams(private, params);
    CommandsConcat(Ground, intro, PrintParams(params));
    var held := Held(private, params);
    PushHeld(private, params);
    ScanFinal(held, final);
    OneByte(InCsi(held), final);
    CommandsConcat(Ground, intro + PrintParams(params), [final]);
    OneMore(Control(PushCurrent(held), final));
  }

  lemma OneMore(c: Command)
    ensures NoCommands + NoCommands == NoCommands && NoCommands + [c] == [c]
  {
  }

  /**
    Fed from the ground state, it acts as the handler on those parameters and ends in the ground
    state.
   */
  lemma PrintedCsiIsHandled(m: Modes, private: bool, params: seq<seq<Digit>>, final: Byte)
    requires params != [] && IsFinal(final)
    ensures ProcessBytes(Tracker(m, Ground), PrintCsi(private, params, final))
         == var (m', reset) := HandleCsi(m, Csi(private, false, false, Kept(params), None), final);
             (Tracker(m', Ground), reset)
  {
    hide HandleCsi, Kept, Commands, ProcessBytes;
    PrintedIsCommand(private, params, final);
    ProcessObeysCommands(Tracker(m, Ground), PrintCsi(private, params, final));
    OneCommand(m, Control(Csi(private, false, false, Kept(params), None), final));
  }

  lemma OneCommand(m: Modes, c: Command)
    ensures ObeyAll(m, [c]) == Obey(m, c)
  {
    hide Obey;
    assert [c][..0] == [];
    assert ObeyAll(m, []) == (m, false);
  }

  // ---------------------------------------------------------------------------------------
  // What a history amounts to
  // ---------------------------------------------------------------------------------------

  /** What a stream does, one thing at a time. */
  datatype Deed =
    | PrivateSet(param: nat)
    | PrivateReset(param: nat)
    | KeypadOn
    | KeypadOff
    | CursorStyle(style: nat)
    | SoftReset
    | HardReset
    | EraseAll
    | NewPage

  function ParamDeeds(params: seq<nat>, set_: bool): seq<Deed> {
    if params == [] then []
    else
      var last := params[|params| - 1];
      ParamDeeds(params[..|params| - 1], set_) + [if set_ then PrivateSet(last) else PrivateReset(last)]
  }

  /** A control sequence: `!p`, `SP q`, an erase of everything, or private parameters set or reset. */
  function ControlDeeds(csi: Csi, final: Byte): seq<Deed> {
    if csi.bang && final == 'p' as int then [SoftReset]
    else if csi.space && final == 'q' as int then [CursorStyle(if csi.params == [] then 0 else csi.params[0])]
    else if !csi.private && (final == 'J' as int || final == 'K' as int)
        && (csi.params == [] || 2 in csi.params || 3 in csi.params) then [EraseAll]
    else if csi.private && (final == 'h' as int || final == 'l' as int) then ParamDeeds(csi.params, final == 'h' as int)
    else []
  }

  function CommandDeeds(c: Command): seq<Deed> {
    match c
    case FormFeed => [NewPage]
    case Keypad(on) => [if on then KeypadOn else KeypadOff]
    case FullReset => [HardReset]
    case Control(csi, final) => ControlDeeds(csi, final)
  }

  function AllDeeds(cs: seq<Command>): seq<Deed> {
    if cs == [] then [] else AllDeeds(cs[..|cs| - 1]) + CommandDeeds(cs[|cs| - 1])
  }

  /** The deeds of a byte history. */
  function Deeds(data: seq<Byte>): seq<Deed> { AllDeeds(Commands(Ground, data).1) }

  /** The modes a byte history leaves. */
  function ModesAfter(data: seq<Byte>): Modes { ProcessBytes(Tracker(NO_MODES, Ground), data).0.modes }

  /** The fields of the tracker, each as a number. */
  datatype Register = Mouse | Encoding | Alternate | CursorKeys | Synced | KeypadKeys | Style

  datatype Event = Set(value: nat) | Unset(value: nat) | Clear | Nothing

  function AsNumber(b: bool): nat { if b then 1 else 0 }

  function RegisterOf(r: Register, m: Modes): nat {
    match r
    case Mouse => m.mouseMode
    case Encoding => m.mouseEncoding
    case Alternate => AsNumber(m.altScreen)
    case CursorKeys => AsNumber(m.appCursor)
    case Synced => AsNumber(m.syncedOutput)
    case KeypadKeys => AsNumber(m.appKeypad)
    case Style => m.cursorStyle
  }

  /** The value a private parameter gives a register, 0 if it does not concern it. */
  function ValueOf(r: Register, param: nat): nat {
    match r
    case Mouse => MouseModeOf(param)
    case Encoding => MouseEncodingOf(param)
    case Alternate => AsNumber(param in {47, 1047, 1049})
    case CursorKeys => AsNumber(param == 1)
    case Synced => AsNumber(param == 2026)
    case _ => 0
  }

  /** What a deed does to a register. */
  function EventOf(r: Register, d: Deed): (e: Event)
    ensures e.Set? ==> e.value != 0
  {
    match d
    case HardReset => Clear
    case SoftReset => if r.CursorKeys? || r.KeypadKeys? || r.Style? then Clear else Nothing
    case PrivateSet(param) => if ValueOf(r, param) == 0 then Nothing else Set(ValueOf(r, param))
    case PrivateReset(param) => if ValueOf(r, param) == 0 then Nothing else Unset(ValueOf(r, param))
    case KeypadOn => if r.KeypadKeys? then Set(1) else Nothing
    case KeypadOff => if r.KeypadKeys? then Unset(1) else Nothing
    case CursorStyle(style) => if !r.Style? then Nothing else if 1 <= style <= 6 then Set(style) else Clear
    case _ => Nothing
  }

  function Events(r: Register, ds: seq<Deed>): (es: seq<Event>)
    ensures |es| == |ds| && forall i :: 0 <= i < |ds| ==> es[i] == EventOf(r, ds[i])
  {
    seq(|ds|, i requires 0 <= i < |ds| => EventOf(r, ds[i]))
  }

  function React(register: nat, e: Event): nat {
    match e
    case Set(v) => v
    case Unset(v) => if register == v then 0 else register
    case Clear => 0
    case Nothing => register
  }

  function ReactAll(register: nat, es: seq<Event>): nat {
    if es == [] then register else React(ReactAll(register, es[..|es| - 1]), es[|es| - 1])
  }

  lemma {:induction false} ReactConcat(register: nat, a: seq<Event>, b: seq<Event>)
    ensures ReactAll(register, a + b) == ReactAll(ReactAll(register, a), b)
    decreases |b|
  {
    hide React;
    if b == [] {
      assert a + b == a;
    } else {
      assert (a + b)[..|a + b| - 1] == a + b[..|b| - 1];
      ReactConcat(register, a, b[..|b| - 1]);
    }
  }

  lemma OneEvent(register: nat, e: Event)
    ensures ReactAll(register, [e]) == React(register, e) && ReactAll(register, []) == register
  {
    assert [e][..0] == [];
    assert ReactAll(register, []) == register;
  }

  lemma ParamReacts(r: Register, m: Modes, param: nat, set_: bool)
    ensures var d := if set_ then PrivateSet(param) else PrivateReset(param);
      RegisterOf(r, ApplyParam(m, param, set_)) == React(RegisterOf(r, m), EventOf(r, d))
  {
    hide EventOf, React;
    if ValueOf(r, param) == 0 {
      ParamSpares(r, m, param, set_);
    } else {
      ParamStrikes(r, m, param, set_);
    }
    ParamEvent(r, RegisterOf(r, m), param, set_);
  }

  lemma ParamSpares(r: Register, m: Modes, param: nat, set_: bool)
    requires ValueOf(r, param) == 0
    ensures RegisterOf(r, ApplyParam(m, param, set_)) == RegisterOf(r, m)
  {
  }

  lemma ParamStrikes(r: Register, m: Modes, param: nat, set_: bool)
    requires ValueOf(r, param) != 0
    ensures RegisterOf(r, ApplyParam(m, param, set_)) == Update(RegisterOf(r, m), ValueOf(r, param), set_)
  {
  }

  lemma ParamEvent(r: Register, register: nat, param: nat, set_: bool)
    ensures var d := if set_ then PrivateSet(param) else PrivateReset(param);
      React(register, EventOf(r, d)) == Update(register, ValueOf(r, param), set_)
  {
    hide ValueOf;
  }

  lemma {:induction false} ParamsReact(r: Register, m: Modes, params: seq<nat>, set_: bool)
    ensures RegisterOf(r, ApplyParams(m, params, set_))
         == ReactAll(RegisterOf(r, m), Events(r, ParamDeeds(params, set_)))
    decreases |params|
  {
    hide ApplyParam, RegisterOf, EventOf, ReactAll, React;
    if params == [] {
      OneEvent(RegisterOf(r, m), Nothing);
    } else {
      var init, last := params[..|params| - 1], params[|params| - 1];
      var d := if set_ then PrivateSet(last) else PrivateReset(last);
      ParamsReact(r, m, init, set_);
      ParamReacts(r, ApplyParams(m, init, set_), last, set_);
      var before := Events(r, ParamDeeds(init, set_));
      assert Events(r, ParamDeeds(params, set_)) == before + [EventOf(r, d)];
      ReactConcat(RegisterOf(r, m), before, [EventOf(r, d)]);
      OneEvent(ReactAll(RegisterOf(r, m), before), EventOf(r, d));
    }
  }

  lemma ControlReacts(r: Register, m: Modes, csi: Csi, final: Byte)
    ensures RegisterOf(r, HandleCsi(m, csi, final).0) == ReactAll(RegisterOf(r, m), Events(r, ControlDeeds(csi, final)))
  {
    hide ApplyParams, ParamDeeds, ReactAll;
    if ControlIsParams(csi, final) {
      hide RegisterOf, EventOf;
      ParamsReact(r, m, csi.params, final == 'h' as int);
    } else {
      DeedsReact(RegisterOf(r, m), r, ControlDeeds(csi, final));
    }
  }

  predicate ControlIsParams(csi: Csi, final: Byte) {
    && csi.private && (final == 'h' as int || final == 'l' as int)
  }

  /** None or one deed. */
  lemma DeedsReact(register: nat, r: Register, ds: seq<Deed>)
    ensures ds == [] ==> ReactAll(register, Events(r, ds)) == register
    ensures |ds| == 1 ==> ReactAll(register, Events(r, ds)) == React(register, EventOf(r, ds[0]))
  {
    hide ReactAll, React, EventOf;
    if ds == [] {
      assert Events(r, ds) == [];
      OneEvent(register, Nothing);
    } else if |ds| == 1 {
      assert Events(r, ds) == [EventOf(r, ds[0])];
      OneEvent(register, EventOf(r, ds[0]));
    }
  }

  lemma ObeyReacts(r: Register, m: Modes, c: Command)
    ensures RegisterOf(r, Obey(m, c).0) == ReactAll(RegisterOf(r, m), Events(r, CommandDeeds(c)))
  {
    hide HandleCsi, ControlDeeds, ReactAll;
    if c.Control? {
      ControlReacts(r, m, c.csi, c.final);
    } else {
      DeedsReact(RegisterOf(r, m), r, CommandDeeds(c));
    }
  }

  lemma {:induction false} CommandsReact(r: Register, m: Modes, cs: seq<Command>)
    ensures RegisterOf(r, ObeyAll(m, cs).0) == ReactAll(RegisterOf(r, m), Events(r, AllDeeds(cs)))
    decreases |cs|
  {
    hide RegisterOf, Obey, CommandDeeds, ReactAll, React, EventOf;
    if cs == [] {
      assert Events(r, AllDeeds(cs)) == [];
      OneEvent(RegisterOf(r, m), Nothing);
    } else {
      var init, last := cs[..|cs| - 1], cs[|cs| - 1];
      CommandsReact(r, m, init);
      ObeyReacts(r, ObeyAll(m, init).0, last);
      var before := Events(r, AllDeeds(init));
      assert Events(r, AllDeeds(cs)) == before + Events(r, CommandDeeds(last));
      ReactConcat(RegisterOf(r, m), before, Events(r, CommandDeeds(last)));
    }
  }

  /** Event `i` set `v` and nothing after it set anything, reset `v`, or cleared the register. */
  predicate LastSet(es: seq<Event>, i: nat, v: nat) {
    && i < |es| && es[i] == Set(v)
    && forall j :: i < j < |es| ==> !es[j].Set? && es[j] != Unset(v) && !es[j].Clear?
  }

  lemma {:induction false} ReactIsLastSet(es: seq<Event>, v: nat)
    requires v != 0 && forall i :: 0 <= i < |es| && es[i].Set? ==> es[i].value != 0
    ensures ReactAll(0, es) == v <==> exists i: nat :: LastSet(es, i, v)
    decreases |es|
  {
    if es != [] {
      var init, e := es[..|es| - 1], es[|es| - 1];
      ReactIsLastSet(init, v);
      var now := ReactAll(0, init);
      if e == Set(v) {
        assert LastSet(es, |es| - 1, v);
      }
      if now == v && !e.Set? && e != Unset(v) && !e.Clear? {
        var i: nat :| LastSet(init, i, v);
        assert LastSet(es, i, v);
      }
      if exists i: nat :: LastSet(es, i, v) {
        var i: nat :| LastSet(es, i, v);
        if i < |es| - 1 {
          assert LastSet(init, i, v);
        }
      }
    }
  }

  /** After any byte history a register holds what the last event that still stands gave it. */
  lemma RegisterHistory(r: Register, data: seq<Byte>, v: nat)
    requires v != 0
    ensures RegisterOf(r, ModesAfter(data)) == v <==> exists i: nat :: LastSet(Events(r, Deeds(data)), i, v)
  {
    hide RegisterOf, Commands, ObeyAll, ProcessBytes, AllDeeds, EventOf;
    var cs := Commands(Ground, data).1;
    ProcessObeysCommands(Tracker(NO_MODES, Ground), data);
    CommandsReact(r, NO_MODES, cs);
    assert ModesAfter(data) == ObeyAll(NO_MODES, cs).0;
    assert Deeds(data) == AllDeeds(cs);
    NoModes(r);
    ReactIsLastSet(Events(r, AllDeeds(cs)), v);
  }

  lemma NoModes(r: Register)
    ensures RegisterOf(r, NO_MODES) == 0
  {
  }

  // ---------------------------------------------------------------------------------------
  // Histories, in numbers
  // ---------------------------------------------------------------------------------------

  /** Deed `i` is one of `on` and none of `off` follows it. */
  predicate Stands(ds: seq<Deed>, i: nat, on: set<Deed>, off: set<Deed>) {
    i < |ds| && ds[i] in on && forall j :: i < j < |ds| ==> ds[j] !in off
  }

  /** For a register that is on or off it does not matter which of several sets came last. */
  lemma {:induction false} LastSetFrom(
      r: Register, ds: seq<Deed>, on: set<Deed>, off: set<Deed>, i: nat)
      returns (k: nat)
    requires forall d :: (EventOf(r, d) == Set(1) <==> d in on) && (EventOf(r, d).Set? ==> d in on)
    requires forall d :: EventOf(r, d) == Unset(1) || EventOf(r, d) == Clear <==> d in off
    requires Stands(ds, i, on, off)
    ensures LastSet(Events(r, ds), k, 1)
    decreases |ds| - i
  {
    hide EventOf;
    if exists j :: i < j < |ds| && ds[j] in on {
      var j: nat :| i < j < |ds| && ds[j] in on;
      k := LastSetFrom(r, ds, on, off, j);
    } else {
      k := i;
    }
  }

  lemma FlagHistory(r: Register, data: seq<Byte>, on: set<Deed>, off: set<Deed>)
    requires forall d :: (EventOf(r, d) == Set(1) <==> d in on) && (EventOf(r, d).Set? ==> d in on)
    requires forall d :: EventOf(r, d) == Unset(1) || EventOf(r, d) == Clear <==> d in off
    ensures RegisterOf(r, ModesAfter(data)) == 1 <==> exists i: nat :: Stands(Deeds(data), i, on, off)
  {
    hide EventOf, RegisterOf, Deeds, ModesAfter;
    var ds := Deeds(data);
    RegisterHistory(r, data, 1);
    if exists i: nat :: Stands(ds, i, on, off) {
      var i: nat :| Stands(ds, i, on, off);
      var k := LastSetFrom(r, ds, on, off, i);
    }
    if exists i: nat :: LastSet(Events(r, ds), i, 1) {
      var i: nat :| LastSet(Events(r, ds), i, 1);
      assert Stands(ds, i, on, off);
    }
  }

  /** The alternate screen shows iff the last set or reset of 47, 1047 or 1049, or full reset, was a set. */
  lemma AlternateScreenHistory(data: seq<Byte>)
    ensures ModesAfter(data).altScreen <==>
      exists i: nat ::
        Stands(Deeds(data), i, {PrivateSet(47), PrivateSet(1047), PrivateSet(1049)},
               {PrivateReset(47), PrivateReset(1047), PrivateReset(1049), HardReset})
  {
    hide Deeds, ModesAfter;
    FlagHistory(Alternate, data, {PrivateSet(47), PrivateSet(1047), PrivateSet(1049)},
                {PrivateReset(47), PrivateReset(1047), PrivateReset(1049), HardReset});
  }

  /** Application cursor keys: 1, and either reset turns them off. */
  lemma CursorKeysHistory(data: seq<Byte>)
    ensures ModesAfter(data).appCursor <==>
      exists i: nat :: Stands(Deeds(data), i, {PrivateSet(1)}, {PrivateReset(1), SoftReset, HardReset})
  {
    hide Deeds, ModesAfter;
    FlagHistory(CursorKeys, data, {PrivateSet(1)}, {PrivateReset(1), SoftReset, HardReset});
  }

  /** Synchronized output: 2026; a soft reset leaves it alone. */
  lemma SyncedOutputHistory(data: seq<Byte>)
    ensures ModesAfter(data).syncedOutput <==>
      exists i: nat :: Stands(Deeds(data), i, {PrivateSet(2026)}, {PrivateReset(2026), HardReset})
  {
    hide Deeds, ModesAfter;
    FlagHistory(Synced, data, {PrivateSet(2026)}, {PrivateReset(2026), HardReset});
  }

  /** The application keypad: its two escapes, and either reset turns it off. */
  lemma KeypadHistory(data: seq<Byte>)
    ensures ModesAfter(data).appKeypad <==>
      exists i: nat :: Stands(Deeds(data), i, {KeypadOn}, {KeypadOff, SoftReset, HardReset})
  {
    hide Deeds, ModesAfter;
    FlagHistory(KeypadKeys, data, {KeypadOn}, {KeypadOff, SoftReset, HardReset});
  }

  predicate LastStyle(ds: seq<Deed>, i: nat, v: nat) {
    && i < |ds| && ds[i] == CursorStyle(v)
    && forall j :: i < j < |ds| ==> !ds[j].CursorStyle? && ds[j] != SoftReset && ds[j] != HardReset
  }

  /** The cursor style is that of the last request, if it is 1 to 6, unless a reset follows. */
  lemma CursorStyleHistory(data: seq<Byte>, v: nat)
    requires v != 0
    ensures ModesAfter(data).cursorStyle == v <==> v <= 6 && exists i: nat :: LastStyle(Deeds(data), i, v)
  {
    hide Deeds, ModesAfter;
    RegisterHistory(Style, data, v);
    var ds := Deeds(data);
    if i: nat :| LastSet(Events(Style, ds), i, v) {
      forall j | i < j < |ds| ensures !ds[j].CursorStyle? && ds[j] != SoftReset && ds[j] != HardReset {
        assert Events(Style, ds)[j] == EventOf(Style, ds[j]);
      }
      assert LastStyle(ds, i, v);
    }
    if i: nat :| v <= 6 && LastStyle(ds, i, v) {
      assert LastSet(Events(Style, ds), i, v);
    }
  }

  /** The mouse parameters and the values they stand for. */
  predicate MouseParam(param: nat, v: nat) {
    (param == 9 && v == 1) || (param == 1000 && v == 2) || (param == 1002 && v == 3) || (param == 1003 && v == 4)
  }

  predicate EncodingParam(param: nat, v: nat) {
    (param == 1005 && v == 1) || (param == 1006 && v == 2) || (param == 1016 && v == 3)
  }

  /** A set of `param` that no other set of its kind, reset of its own or full reset follows. */
  predicate LastOfKind(ds: seq<Deed>, i: nat, param: nat, kind: set<nat>) {
    && i < |ds| && ds[i] == PrivateSet(param)
    && forall j :: i < j < |ds| ==>
         && (ds[j].PrivateSet? ==> ds[j].param !in kind) && ds[j] != PrivateReset(param) && ds[j] != HardReset
  }

  /**
    The mouse mode is 1, 2, 3 or 4 exactly when the last private set among 9, 1000, 1002 and 1003
    was that of 9, 1000, 1002 or 1003 and neither its own reset nor a full reset followed.
   */
  lemma MouseHistory(data: seq<Byte>, param: nat, v: nat)
    requires MouseParam(param, v)
    ensures ModesAfter(data).mouseMode == v <==>
      exists i: nat :: LastOfKind(Deeds(data), i, param, {9, 1000, 1002, 1003})
  {
    hide Deeds, ModesAfter;
    RegisterHistory(Mouse, data, v);
    KindHistory(Mouse, Deeds(data), param, v, {9, 1000, 1002, 1003});
  }

  /** Likewise the encoding, with 1005, 1006 and 1016. */
  lemma MouseEncodingHistory(data: seq<Byte>, param: nat, v: nat)
    requires EncodingParam(param, v)
    ensures ModesAfter(data).mouseEncoding == v <==>
      exists i: nat :: LastOfKind(Deeds(data), i, param, {1005, 1006, 1016})
  {
    hide Deeds, ModesAfter;
    RegisterHistory(Encoding, data, v);
    KindHistory(Encoding, Deeds(data), param, v, {1005, 1006, 1016});
  }

  lemma KindHistory(r: Register, ds: seq<Deed>, param: nat, v: nat, kind: set<nat>)
    requires r.Mouse? || r.Encoding?
    requires v != 0 && ValueOf(r, param) == v && (forall p :: ValueOf(r, p) == v ==> p == param)
    requires forall p :: ValueOf(r, p) != 0 <==> p in kind
    ensures (exists i: nat :: LastSet(Events(r, ds), i, v)) <==> exists i: nat :: LastOfKind(ds, i, param, kind)
  {
    hide ValueOf;
    if i: nat :| LastSet(Events(r, ds), i, v) {
      forall j | i < j < |ds|
        ensures (ds[j].PrivateSet? ==> ds[j].param !in kind) && ds[j] != PrivateReset(param) && ds[j] != HardReset
      {
        assert Events(r, ds)[j] == EventOf(r, ds[j]);
      }
      assert LastOfKind(ds, i, param, kind);
    }
    if i: nat :| LastOfKind(ds, i, param, kind) {
      assert LastSet(Events(r, ds), i, v);
    }
  }

  predicate StartsOver(ds: seq<Deed>) { SoftReset in ds || HardReset in ds || EraseAll in ds || NewPage in ds }

  lemma {:induction false} ResetIsDeed(m: Modes, cs: seq<Command>)
    ensures ObeyAll(m, cs).1 <==> StartsOver(AllDeeds(cs))
    decreases |cs|
  {
    hide Obey, CommandDeeds;
    if cs == [] {
      assert AllDeeds(cs) == [];
    } else {
      var init, last := cs[..|cs| - 1], cs[|cs| - 1];
      ResetIsDeed(m, init);
      CommandResets(ObeyAll(m, init).0, last);
      assert forall d :: d in AllDeeds(cs) <==> d in AllDeeds(init) || d in CommandDeeds(last);
    }
  }

  lemma CommandResets(m: Modes, c: Command)
    ensures var ds := CommandDeeds(c);
      Obey(m, c).1 <==> StartsOver(ds)
  {
    hide ApplyParams, ParamDeeds;
    if c.Control? {
      ParamDeedsAre(c.csi.params, c.final == 'h' as int);
    }
    var ds := CommandDeeds(c);
    if ds != [] {
      assert ds[0] in ds;
    }
  }

  lemma {:induction false} ParamDeedsAre(params: seq<nat>, set_: bool)
    ensures var ds := ParamDeeds(params, set_);
      && |ds| == |params|
      && forall i :: 0 <= i < |ds| ==> ds[i] == if set_ then PrivateSet(params[i]) else PrivateReset(params[i])
    decreases |params|
  {
    if params != [] {
      ParamDeedsAre(params[..|params| - 1], set_);
    }
  }

  /** The used rows start over exactly when the history holds a reset, an erase of everything or a new page. */
  lemma UsedRowsHistory(data: seq<Byte>)
    ensures ProcessBytes(Tracker(NO_MODES, Ground), data).1 <==> StartsOver(Deeds(data))
  {
    hide ProcessBytes, Commands, ObeyAll, AllDeeds;
    ProcessObeysCommands(Tracker(NO_MODES, Ground), data);
    assert Deeds(data) == AllDeeds(Commands(Ground, data).1);
    assert ProcessBytes(Tracker(NO_MODES, Ground), data).1 == ObeyAll(NO_MODES, Commands(Ground, data).1).1;
    ResetIsDeed(NO_MODES, Commands(Ground, data).1);
  }

  // ---------------------------------------------------------------------------------------
  // Which bytes are which deeds
  // ---------------------------------------------------------------------------------------

  lemma OneCommandDeeds(c: Command)
    ensures AllDeeds([c]) == CommandDeeds(c)
  {
    hide CommandDeeds;
    assert [c][..0] == [];
    assert AllDeeds([]) == [];
    assert [] + CommandDeeds(c) == CommandDeeds(c);
  }

  /** The deeds of two histories are those of both, when the first leaves no sequence open. */
  lemma {:induction false} DeedsConcat(a: seq<Byte>, b: seq<Byte>)
    requires Commands(Ground, a).0 == Ground
    ensures Deeds(a + b) == Deeds(a) + Deeds(b)
  {
    hide Commands, AllDeeds;
    CommandsConcat(Ground, a, b);
    AllDeedsConcat(Commands(Ground, a).1, Commands(Ground, b).1);
  }

  lemma {:induction false} AllDeedsConcat(a: seq<Command>, b: seq<Command>)
    ensures AllDeeds(a + b) == AllDeeds(a) + AllDeeds(b)
    decreases |b|
  {
    hide CommandDeeds;
    if b == [] {
      assert a + b == a && AllDeeds(a) + [] == AllDeeds(a);
    } else {
      var init, last := b[..|b| - 1], b[|b| - 1];
      assert (a + b)[..|a + b| - 1] == a + init;
      AllDeedsConcat(a, init);
      assert (AllDeeds(a) + AllDeeds(init)) + CommandDeeds(last) == AllDeeds(a) + (AllDeeds(init) + CommandDeeds(last));
    }
  }

  /** `ESC =`, `ESC >`, `ESC c` and a form feed. */
  lemma EscapeDeeds()
    ensures Deeds([0x1B, 0x3D]) == [KeypadOn] && Deeds([0x1B, 0x3E]) == [KeypadOff]
    ensures Deeds([0x1B, 0x63]) == [HardReset] && Deeds([0x0C]) == [NewPage]
  {
    TwoBytes(0x3D, Keypad(true));
    TwoBytes(0x3E, Keypad(false));
    TwoBytes(0x63, FullReset);
    OneByte(Ground, 0x0C);
    OneCommandDeeds(FormFeed);
    hide Commands, AllDeeds;
  }

  lemma TwoBytes(byte: Byte, c: Command)
    requires Scan(Escape, byte) == (Ground, Some(c))
    ensures Deeds([0x1B, byte]) == CommandDeeds(c)
  {
    hide Commands, AllDeeds, CommandDeeds;
    OneByte(Ground, 0x1B);
    OneByte(Escape, byte);
    CommandsConcat(Ground, [0x1B], [byte]);
    assert [0x1B] + [byte] == [0x1B, byte];
    OneMore(c);
    OneCommandDeeds(c);
  }

  /** `ESC [ ! p`. */
  lemma SoftResetDeeds()
    ensures Deeds([0x1B, 0x5B, 0x21, 0x70]) == [SoftReset]
  {
    hide Commands, AllDeeds;
    var csi := EMPTY_CSI.(bang := true);
    ScanIntroducer(false);
    OneByte(InCsi(EMPTY_CSI), 0x21);
    OneByte(InCsi(csi), 0x70);
    CommandsConcat(InCsi(EMPTY_CSI), [0x21], [0x70]);
    CommandsConcat(Ground, [0x1B, 0x5B], [0x21, 0x70]);
    assert [0x21] + [0x70] == [0x21, 0x70] && [0x1B, 0x5B] + [0x21, 0x70] == [0x1B, 0x5B, 0x21, 0x70];
    assert [0x1B, 0x5B] + [] == [0x1B, 0x5B];
    OneMore(Control(PushCurrent(csi), 0x70));
    OneCommandDeeds(Control(PushCurrent(csi), 0x70));
  }

  /** `ESC [ n SP q`. */
  lemma CursorStyleDeeds(digits: seq<Digit>)
    ensures Deeds([0x1B, 0x5B] + PrintDigits(digits) + [0x20, 0x71]) == [CursorStyle(Min(Value(digits), 65535))]
  {
    hide Commands, AllDeeds, Value, PrintDigits;
    var csi := EMPTY_CSI.(current := CurrentOf(digits));
    ScanIntroducer(false);
    assert [0x1B, 0x5B] + [] == [0x1B, 0x5B];
    ScanDigits(EMPTY_CSI, digits);
    CommandsConcat(Ground, [0x1B, 0x5B], PrintDigits(digits));
    OneByte(InCsi(csi), 0x20);
    OneByte(InCsi(csi.(space := true)), 0x71);
    CommandsConcat(InCsi(csi), [0x20], [0x71]);
    assert [0x20] + [0x71] == [0x20, 0x71];
    CommandsConcat(Ground, [0x1B, 0x5B] + PrintDigits(digits), [0x20, 0x71]);
    OneMore(Control(PushCurrent(csi.(space := true)), 0x71));
    OneCommandDeeds(Control(PushCurrent(csi.(space := true)), 0x71));
    CapZero();
  }

  /** `ESC [ ? a ; b ; ... h` sets, and the same with `l` resets, the first eight parameters, each at most 65535. */
  lemma PrivateDeeds(params: seq<seq<Digit>>, set_: bool)
    requires params != []
    ensures var ds := Deeds(PrintCsi(true, params, if set_ then 0x68 else 0x6C));
      && |ds| == Min(|params|, 8)
      && forall i :: 0 <= i < |ds| ==>
           var p := Min(Value(params[i]), 65535); ds[i] == if set_ then PrivateSet(p) else PrivateReset(p)
  {
    hide Commands, AllDeeds, Value, PrintCsi;
    PrintedIsCommand(true, params, if set_ then 0x68 else 0x6C);
    OneCommandDeeds(Control(Csi(true, false, false, Kept(params), None), if set_ then 0x68 else 0x6C));
    ParamDeedsAre(Kept(params), set_);
  }

  /** `ESC [ ... J` and `ESC [ ... K` erase everything exactly when one of the parameters kept is 2 or 3. */
  lemma EraseDeeds(params: seq<seq<Digit>>, final: Byte)
    requires params != [] && (final == 0x4A || final == 0x4B)
    ensures Deeds(PrintCsi(false, params, final))
         == if exists i :: 0 <= i < |params| && i < 8 && Value(params[i]) in {2, 3} then [EraseAll] else []
  {
    hide Commands, AllDeeds, Value, PrintCsi;
    PrintedIsCommand(false, params, final);
    var kept := Kept(params);
    OneCommandDeeds(Control(Csi(false, false, false, kept, None), final));
    if i :| 0 <= i < |params| && i < 8 && Value(params[i]) in {2, 3} {
      assert kept[i] in {2, 3};
    }
  }

  /** Every other printed sequence does nothing: private with any other final byte, or public with any but J and K. */
  lemma QuietSequences(private: bool, params: seq<seq<Digit>>, final: Byte)
    requires params != [] && IsFinal(final)
    requires if private then final != 0x68 && final != 0x6C else final != 0x4A && final != 0x4B
    ensures Deeds(PrintCsi(private, params, final)) == []
  {
    hide Commands, AllDeeds, Value, PrintCsi, Kept;
    PrintedIsCommand(private, params, final);
    OneCommandDeeds(Control(Csi(private, false, false, Kept(params), None), final));
  }

  // ---------------------------------------------------------------------------------------
  // The mode word
  // ---------------------------------------------------------------------------------------

  predicate InRange(m: Modes) { m.mouseMode <= 4 && m.mouseEncoding <= 3 && m.cursorStyle <= 6 }

  lemma {:induction false} ParamsKeepRange(m: Modes, params: seq<nat>, set_: bool)
    requires InRange(m)
    ensures InRange(ApplyParams(m, params, set_))
    decreases |params|
  {
    if params != [] {
      ParamsKeepRange(m, params[..|params| - 1], set_);
    }
  }

  /** Every byte history leaves the tracked fields in range. */
  lemma {:induction false} HistoryKeepsRange(t: Tracker, data: seq<Byte>)
    requires InRange(t.modes)
    ensures InRange(ProcessBytes(t, data).0.modes)
    decreases |data|
  {
    if data != [] {
      HistoryKeepsRange(t, data[..|data| - 1]);
      StepKeepsRange(ProcessBytes(t, data[..|data| - 1]).0, data[|data| - 1]);
    }
  }

  lemma StepKeepsRange(t: Tracker, byte: Byte)
    requires InRange(t.modes)
    ensures InRange(Step(t, byte).0.modes)
  {
    var (p, c) := Scan(t.parse, byte);
    hide Scan;
    if c.Some? && c.value.Control? {
      ParamsKeepRange(t.modes, c.value.csi.params, c.value.final == 'h' as int);
      hide ApplyParams;
    }
  }

  function Bits(n: nat): bv16 {
    match n case 0 => 0 case 1 => 1 case 2 => 2 case 3 => 3 case 4 => 4 case 5 => 5 case _ => 6
  }

  function Flag(on: bool, bit: bv16): bv16 { if on then bit else 0 }

  function PackFlags(m: Modes, cursorVisible: bool, bracketedPaste: bool, echo: bool, icanon: bool): bv16 {
    Flag(cursorVisible, 1) | Flag(m.appCursor, 2) | Flag(m.appKeypad, 4) | Flag(bracketedPaste, 8)
    | Flag(echo, 0x200) | Flag(icanon, 0x400) | Flag(m.altScreen, 0x800)
  }

  function Pack(m: Modes, cursorVisible: bool, bracketedPaste: bool, echo: bool, icanon: bool): bv16 {
    Word(PackFlags(m, cursorVisible, bracketedPaste, echo, icanon),
        Bits(m.mouseMode), Bits(m.mouseEncoding), Bits(m.cursorStyle))
  }

  function Word(flags: bv16, mouse: bv16, encoding: bv16, style: bv16): bv16 {
    flags | (mouse << 4) | (encoding << 7) | ((style & 7) << 12)
  }

  /** What the browser's accessors read out of a mode word. */
  datatype Unpacked = Unpacked(
    cursorVisible: bool, appCursor: bool, bracketedPaste: bool, mouseMode: bv16, mouseEncoding: bv16,
    echo: bool, icanon: bool, altScreen: bool, cursorStyle: bv16)

  function Unpack(mode: bv16): Unpacked {
    Unpacked(mode & 1 != 0, mode & 2 != 0, mode & 8 != 0, (mode >> 4) & 7, (mode >> 7) & 3,
             mode & 0x200 != 0, mode & 0x400 != 0, mode & 0x800 != 0, (mode >> 12) & 7)
  }

  /** The three multi-bit fields and the flag bits do not disturb each other. */
  lemma FieldsDoNotOverlap(flags: bv16, mouse: bv16, encoding: bv16, style: bv16)
    requires flags & 0xF1F0 == 0 && mouse <= 7 && encoding <= 3 && style <= 7
    ensures var w := Word(flags, mouse, encoding, style);
      && (w >> 4) & 7 == mouse && (w >> 7) & 3 == encoding && (w >> 12) & 7 == style
      && w & 1 == flags & 1 && w & 2 == flags & 2 && w & 4 == flags & 4 && w & 8 == flags & 8
      && w & 0x200 == flags & 0x200 && w & 0x400 == flags & 0x400 && w & 0x800 == flags & 0x800
  {
  }

  lemma FlagBits(m: Modes, cursorVisible: bool, bracketedPaste: bool, echo: bool, icanon: bool)
    ensures var f := PackFlags(m, cursorVisible, bracketedPaste, echo, icanon);
      && f & 0xF1F0 == 0
      && (f & 1 != 0 <==> cursorVisible) && (f & 2 != 0 <==> m.appCursor) && (f & 4 != 0 <==> m.appKeypad)
      && (f & 8 != 0 <==> bracketedPaste)
      && (f & 0x200 != 0 <==> echo) && (f & 0x400 != 0 <==> icanon) && (f & 0x800 != 0 <==> m.altScreen)
  {
  }

  /** Where each field stands in the mode word. */
  lemma WordHolds(m: Modes, cursorVisible: bool, bracketedPaste: bool, echo: bool, icanon: bool)
    requires InRange(m)
    ensures var w := Pack(m, cursorVisible, bracketedPaste, echo, icanon);
      && (w & 0x0001 != 0 <==> cursorVisible) && (w & 0x0002 != 0 <==> m.appCursor)
      && (w & 0x0004 != 0 <==> m.appKeypad) && (w & 0x0008 != 0 <==> bracketedPaste)
      && (w & 0x0200 != 0 <==> echo) && (w & 0x0400 != 0 <==> icanon) && (w & 0x0800 != 0 <==> m.altScreen)
      && (w >> 4) & 7 == Bits(m.mouseMode) && (w >> 7) & 3 == Bits(m.mouseEncoding)
      && (w >> 12) & 7 == Bits(m.cursorStyle)
  {
    hide Bits, PackFlags, Word;
    BitsAreSmall(m.mouseMode);
    BitsAreSmall(m.mouseEncoding);
    BitsAreSmall(m.cursorStyle);
    FlagBits(m, cursorVisible, bracketedPaste, echo, icanon);
    FieldsDoNotOverlap(PackFlags(m, cursorVisible, bracketedPaste, echo, icanon),
        Bits(m.mouseMode), Bits(m.mouseEncoding), Bits(m.cursorStyle));
  }

  /** The three numbers stand there as they are. */
  lemma BitsAreNumbers(n: nat)
    requires n <= 6
    ensures Bits(n) as int == n
  {
  }

  /** The browser recovers every field it reads, after any byte history. */
  lemma BrowserRecoversModes(data: seq<Byte>, cursorVisible: bool, bracketedPaste: bool, echo: bool, icanon: bool)
    ensures var m := ProcessBytes(Tracker(NO_MODES, Ground), data).0.modes;
      && InRange(m)
      && Unpack(Pack(m, cursorVisible, bracketedPaste, echo, icanon))
         == Unpacked(cursorVisible, m.appCursor, bracketedPaste, Bits(m.mouseMode), Bits(m.mouseEncoding),
                     echo, icanon, m.altScreen, Bits(m.cursorStyle))
  {
    HistoryKeepsRange(Tracker(NO_MODES, Ground), data);
    UnpackPack(ProcessBytes(Tracker(NO_MODES, Ground), data).0.modes, cursorVisible, bracketedPaste, echo, icanon);
  }

  lemma UnpackPack(m: Modes, cursorVisible: bool, bracketedPaste: bool, echo: bool, icanon: bool)
    requires InRange(m)
    ensures Unpack(Pack(m, cursorVisible, bracketedPaste, echo, icanon))
         == Unpacked(cursorVisible, m.appCursor, bracketedPaste, Bits(m.mouseMode), Bits(m.mouseEncoding),
                     echo, icanon, m.altScreen, Bits(m.cursorStyle))
  {
    BitsAreSmall(m.mouseMode);
    BitsAreSmall(m.mouseEncoding);
    BitsAreSmall(m.cursorStyle);
    FlagBits(m, cursorVisible, bracketedPaste, echo, icanon);
    hide Bits, PackFlags, Word, Unpack;
    UnpackWord(PackFlags(m, cursorVisible, bracketedPaste, echo, icanon),
        Bits(m.mouseMode), Bits(m.mouseEncoding), Bits(m.cursorStyle));
  }

  lemma BitsAreSmall(n: nat)
    ensures Bits(n) <= 7 && (n <= 3 ==> Bits(n) <= 3)
  {
  }

  lemma UnpackWord(flags: bv16, mouse: bv16, encoding: bv16, style: bv16)
    requires flags & 0xF1F0 == 0 && mouse <= 7 && encoding <= 3 && style <= 7
    ensures Unpack(Word(flags, mouse, encoding, style))
         == Unpacked(flags & 1 != 0, flags & 2 != 0, flags & 8 != 0, mouse, encoding,
                     flags & 0x200 != 0, flags & 0x400 != 0, flags & 0x800 != 0, style)
  {
    FieldsDoNotOverlap(flags, mouse, encoding, style);
    hide Word;
  }
}
