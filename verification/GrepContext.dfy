/** Context lines of `yas grep`: hits collected per line, merged into groups, and printed. */
module GrepContext {
  import opened Common

  /** Lines are numbered from 1. */
  datatype Group = Group(lo: nat, hi: nat)

  datatype Options = Options(before: nat, after: nat, noSeparator: bool)

  datatype Printed = HitLine(line: nat) | ContextLine(line: nat) | Separator

  // ---------------------------------------------------------------------------------------
  // Which lines hit
  // ---------------------------------------------------------------------------------------

  /** The line numbers, among the first `n` lines, that match or, inverted, do not. */
  function HitLines(matches: seq<bool>, invert: bool, n: nat): seq<nat>
    requires n <= |matches|
  {
    if n == 0 then []
    else HitLines(matches, invert, n - 1) + if matches[n - 1] != invert then [n] else []
  }

  method CollectHits(matches: seq<bool>, invert: bool) returns (hits: seq<nat>)
    ensures hits == HitLines(matches, invert, |matches|)
  {
    hits := [];
    for idx := 0 to |matches|
      invariant hits == HitLines(matches, invert, idx)
    {
      if matches[idx] != invert {
        hits := hits + [idx + 1];
      }
    }
  }

  /** Increasing line numbers of existing lines: what the collection yields, cut short or not. */
  predicate HitsOk(hits: seq<nat>, lines: nat) {
    && (forall i :: 0 <= i < |hits| ==> 1 <= hits[i] <= lines)
    && (forall i, j :: 0 <= i < j < |hits| ==> hits[i] < hits[j])
  }

  lemma {:induction false} CollectedHits(matches: seq<bool>, invert: bool, n: nat)
    requires n <= |matches|
    ensures HitsOk(HitLines(matches, invert, n), n)
    ensures forall line: nat :: line in HitLines(matches, invert, n) <==> 1 <= line <= n && matches[line - 1] != invert
  {
    if n > 0 {
      CollectedHits(matches, invert, n - 1);
    }
  }

  // ---------------------------------------------------------------------------------------
  // Groups
  // ---------------------------------------------------------------------------------------

  /** The clipped window around a hit. */
  function Window(o: Options, lines: nat, hit: nat): Group
    requires 1 <= hit <= lines
  {
    Group(Max(hit - o.before, 1), Min(hit + o.after, lines))
  }

  predicate In(line: nat, g: Group) { g.lo <= line <= g.hi }

  predicate InWindows(o: Options, lines: nat, hits: seq<nat>, line: nat)
    requires HitsOk(hits, lines)
  {
    exists i :: 0 <= i < |hits| && In(line, Window(o, lines, hits[i]))
  }

  predicate InGroups(gs: seq<Group>, line: nat) { exists i :: 0 <= i < |gs| && In(line, gs[i]) }

  /** Ordered, with at least one line missing between neighbours. */
  predicate Separate(gs: seq<Group>) {
    && (forall i :: 0 <= i < |gs| ==> 1 <= gs[i].lo <= gs[i].hi)
    && (forall i, j :: 0 <= i < j < |gs| ==> gs[i].hi + 1 < gs[j].lo)
  }

  function AddWindow(gs: seq<Group>, w: Group): seq<Group> {
    if gs != [] && gs[|gs| - 1].hi + 1 >= w.lo
    then gs[..|gs| - 1] + [Group(gs[|gs| - 1].lo, Max(gs[|gs| - 1].hi, w.hi))]
    else gs + [w]
  }

  function Groups(o: Options, lines: nat, hits: seq<nat>): seq<Group>
    requires HitsOk(hits, lines)
  {
    if hits == [] then []
    else AddWindow(Groups(o, lines, hits[..|hits| - 1]), Window(o, lines, hits[|hits| - 1]))
  }

  method BuildGroups(o: Options, lines: nat, hits: seq<nat>) returns (groups: seq<Group>)
    requires HitsOk(hits, lines)
    ensures groups == Groups(o, lines, hits)
  {
    groups := [];
    for k := 0 to |hits|
      invariant groups == Groups(o, lines, hits[..k])
    {
      var h := hits[k];
      var lo := Max(h - o.before, 1);
      var hi := Min(h + o.after, lines);
      assert hits[..k + 1][..k] == hits[..k];
      if |groups| > 0 && groups[|groups| - 1].hi + 1 >= lo {
        var g := groups[|groups| - 1];
        groups := groups[..|groups| - 1] + [Group(g.lo, Max(g.hi, hi))];
      } else {
        groups := groups + [Group(lo, hi)];
      }
    }
    assert hits[..|hits|] == hits;
  }

  lemma AddWindowOrder(gs: seq<Group>, w: Group)
    requires Separate(gs) && 1 <= w.lo <= w.hi && (gs != [] ==> gs[|gs| - 1].lo <= w.lo)
    ensures Separate(AddWindow(gs, w)) && AddWindow(gs, w) != []
    ensures AddWindow(gs, w)[|AddWindow(gs, w)| - 1].lo <= w.lo
  {
  }

  /** Only the last group changes, or a new one comes after it. */
  lemma LastWindow(gs: seq<Group>, w: Group, line: nat)
    requires Separate(gs) && 1 <= w.lo <= w.hi && (gs != [] ==> gs[|gs| - 1].lo <= w.lo)
    ensures var r := AddWindow(gs, w);
      && 0 < |r| && |gs| <= |r| <= |gs| + 1 && (forall i :: 0 <= i < |gs| - 1 ==> r[i] == gs[i])
      && (|r| == |gs| + 1 ==> r[|gs|] == w && (gs != [] ==> r[|gs| - 1] == gs[|gs| - 1]))
      && (|r| == |gs| ==> (In(line, r[|gs| - 1]) <==> In(line, gs[|gs| - 1]) || In(line, w)))
  {
  }

  /** Adding a window that starts no earlier than the last group adds exactly its lines. */
  lemma AddWindowKeeps(gs: seq<Group>, w: Group, line: nat)
    requires Separate(gs) && 1 <= w.lo <= w.hi && (gs != [] ==> gs[|gs| - 1].lo <= w.lo)
    ensures InGroups(AddWindow(gs, w), line) <==> InGroups(gs, line) || In(line, w)
  {
    var r := AddWindow(gs, w);
    LastWindow(gs, w, line);
    hide AddWindow, In, Separate;
    if InGroups(gs, line) {
      var i :| 0 <= i < |gs| && In(line, gs[i]);
      assert if i < |gs| - 1 then In(line, r[i]) else In(line, r[|gs| - 1]);
    }
    if In(line, w) {
      assert In(line, r[|r| - 1]);
    }
    if InGroups(r, line) {
      var i :| 0 <= i < |r| && In(line, r[i]);
      assert i < |gs| - 1 ==> In(line, gs[i]);
    }
  }

  lemma NoGroups(o: Options, lines: nat, hits: seq<nat>, line: nat)
    requires HitsOk(hits, lines) && hits == []
    ensures Groups(o, lines, hits) == [] && Separate([]) && !InGroups([], line) && !InWindows(o, lines, hits, line)
  {
  }

  lemma WindowIsProper(o: Options, lines: nat, hit: nat)
    requires 1 <= hit <= lines
    ensures 1 <= Window(o, lines, hit).lo <= Window(o, lines, hit).hi
  {
  }

  lemma LaterWindow(o: Options, lines: nat, hit: nat, later: nat)
    requires 1 <= hit <= later <= lines
    ensures Window(o, lines, hit).lo <= Window(o, lines, later).lo
  {
  }

  /**
    The groups are ordered and non-adjacent, and together hold exactly the lines of the clipped
    windows.
   */
  lemma {:induction false} GroupsAreTheWindows(o: Options, lines: nat, hits: seq<nat>, line: nat)
    requires HitsOk(hits, lines)
    ensures Separate(Groups(o, lines, hits))
    ensures InGroups(Groups(o, lines, hits), line) <==> InWindows(o, lines, hits, line)
    ensures hits != [] ==> Groups(o, lines, hits) != []
    ensures hits != [] ==>
      Groups(o, lines, hits)[|Groups(o, lines, hits)| - 1].lo <= Window(o, lines, hits[|hits| - 1]).lo
    decreases |hits|
  {
    hide AddWindow, InWindows, InGroups, Separate, Window;
    if hits == [] {
      NoGroups(o, lines, hits, line);
    } else {
      var init, last := hits[..|hits| - 1], hits[|hits| - 1];
      GroupsAreTheWindows(o, lines, init, line);
      WindowIsProper(o, lines, last);
      if init != [] {
        assert init[|init| - 1] == hits[|hits| - 2];
        LaterWindow(o, lines, hits[|hits| - 2], last);
      }
      AddWindowOrder(Groups(o, lines, init), Window(o, lines, last));
      AddWindowKeeps(Groups(o, lines, init), Window(o, lines, last), line);
      WindowsStep(o, lines, hits, line);
    }
  }

  lemma WindowsStep(o: Options, lines: nat, hits: seq<nat>, line: nat)
    requires HitsOk(hits, lines) && hits != []
    ensures InWindows(o, lines, hits, line)
        <==> InWindows(o, lines, hits[..|hits| - 1], line) || In(line, Window(o, lines, hits[|hits| - 1]))
  {
    var init := hits[..|hits| - 1];
    hide Window, In;
    if InWindows(o, lines, init, line) {
      var i :| 0 <= i < |init| && In(line, Window(o, lines, init[i]));
      assert In(line, Window(o, lines, hits[i]));
    }
    if InWindows(o, lines, hits, line) {
      var i :| 0 <= i < |hits| && In(line, Window(o, lines, hits[i]));
      if i < |init| {
        assert In(line, Window(o, lines, init[i]));
      }
    }
  }

  // ---------------------------------------------------------------------------------------
  // Printing
  // ---------------------------------------------------------------------------------------

  predicate ContextOn(o: Options) { !o.noSeparator && (o.before > 0 || o.after > 0) }

  function PrintLine(hits: seq<nat>, line: nat): Printed { if line in hits then HitLine(line) else ContextLine(line) }

  /** The printed form of the lines `lo` to `hi` exclusive. */
  function PrintLines(hits: seq<nat>, lo: nat, hi: nat): seq<Printed>
    decreases hi - lo
  {
    if lo >= hi then [] else PrintLines(hits, lo, hi - 1) + [PrintLine(hits, hi - 1)]
  }

  /**
    What ought to be printed for the lines 1 to `n`: every line near a hit, and where context is
    shown a separator before a run of lines that is not the first.
   */
  function Expected(o: Options, lines: nat, hits: seq<nat>, n: nat): seq<Printed>
    requires HitsOk(hits, lines)
  {
    if n == 0 then []
    else
      var before := Expected(o, lines, hits, n - 1);
      if !InWindows(o, lines, hits, n) then before
      else
        before
        + (if ContextOn(o) && before != [] && !InWindows(o, lines, hits, n - 1) then [Separator] else [])
        + [PrintLine(hits, n)]
  }

  function Printing(o: Options, hits: seq<nat>, gs: seq<Group>): seq<Printed> {
    if gs == [] then []
    else
      var init, last := gs[..|gs| - 1], gs[|gs| - 1];
      Printing(o, hits, init)
      + (if init != [] && ContextOn(o) && init[|init| - 1].hi + 1 < last.lo then [Separator] else [])
      + PrintLines(hits, last.lo, last.hi + 1)
  }

  method Render(o: Options, lines: nat, hits: seq<nat>) returns (out: seq<Printed>)
    requires HitsOk(hits, lines)
    ensures out == Expected(o, lines, hits, lines)
  {
    hide Expected, Printing;
    PrintingIsExpected(o, lines, hits);
    if |hits| == 0 {
      NothingToPrint(o, lines, hits);
      return [];
    }
    var groups := BuildGroups(o, lines, hits);
    out := PrintGroups(o, hits, groups);
  }

  lemma NothingToPrint(o: Options, lines: nat, hits: seq<nat>)
    requires HitsOk(hits, lines) && hits == []
    ensures Printing(o, hits, Groups(o, lines, hits)) == []
  {
  }

  method PrintGroups(o: Options, hits: seq<nat>, groups: seq<Group>) returns (out: seq<Printed>)
    ensures out == Printing(o, hits, groups)
  {
    var matched := set h | h in hits;
    out := [];
    var firstGroup := true;
    var lastEnd: int := -1;
    for k := 0 to |groups|
      invariant out == Printing(o, hits, groups[..k])
      invariant firstGroup == (k == 0) && (k > 0 ==> lastEnd == groups[k - 1].hi)
    {
      var g := groups[k];
      assert groups[..k + 1][..k] == groups[..k];
      if !firstGroup && ContextOn(o) && lastEnd + 1 < g.lo {
        out := out + [Separator];
      }
      firstGroup := false;
      out := PrintGroup(hits, matched, g, out);
      lastEnd := g.hi;
    }
    assert groups[..|groups|] == groups;
  }

  method PrintGroup(hits: seq<nat>, matched: set<nat>, g: Group, before: seq<Printed>) returns (out: seq<Printed>)
    requires matched == set h | h in hits
    ensures out == before + PrintLines(hits, g.lo, g.hi + 1)
  {
    out := before;
    var ln := g.lo;
    while ln <= g.hi
      invariant g.lo <= ln && (g.lo <= g.hi ==> ln <= g.hi + 1) && (g.lo > g.hi ==> ln == g.lo)
      invariant out == before + PrintLines(hits, g.lo, ln)
      decreases g.hi + 1 - ln
    {
      if ln in matched {
        out := out + [HitLine(ln)];
      } else {
        out := out + [ContextLine(ln)];
      }
      ln := ln + 1;
    }
  }

  // ---------------------------------------------------------------------------------------
  // The groups print what is expected
  // ---------------------------------------------------------------------------------------

  /** As `Expected`, told by the groups which lines to print. */
  function ExpectedBy(o: Options, hits: seq<nat>, gs: seq<Group>, n: nat): seq<Printed> {
    if n == 0 then []
    else
      var before := ExpectedBy(o, hits, gs, n - 1);
      if !InGroups(gs, n) then before
      else
        before
        + (if ContextOn(o) && before != [] && !InGroups(gs, n - 1) then [Separator] else [])
        + [PrintLine(hits, n)]
  }

  lemma {:induction false} ExpectedByGroups(o: Options, lines: nat, hits: seq<nat>, n: nat)
    requires HitsOk(hits, lines)
    ensures Expected(o, lines, hits, n) == ExpectedBy(o, hits, Groups(o, lines, hits), n)
  {
    hide Groups, InGroups, InWindows, HitsOk;
    if n > 0 {
      ExpectedByGroups(o, lines, hits, n - 1);
      GroupsAreTheWindows(o, lines, hits, n);
      GroupsAreTheWindows(o, lines, hits, n - 1);
    }
  }

  /** A line after group `k - 1` and before group `k` is in none. */
  lemma Between(gs: seq<Group>, k: nat, line: nat)
    requires Separate(gs) && k <= |gs| && (k > 0 ==> gs[k - 1].hi < line) && (k < |gs| ==> line < gs[k].lo)
    ensures !InGroups(gs, line)
  {
    if k > 0 {
      assert forall i :: 0 <= i < k ==> gs[i].hi <= gs[k - 1].hi;
    }
    if k < |gs| {
      assert forall i :: k <= i < |gs| ==> gs[k].lo <= gs[i].lo;
    }
  }

  lemma {:induction false} Gap(o: Options, hits: seq<nat>, gs: seq<Group>, k: nat, a: nat, b: nat)
    requires Separate(gs) && k <= |gs| && a <= b && (k > 0 ==> gs[k - 1].hi <= a) && (k < |gs| ==> b < gs[k].lo)
    ensures ExpectedBy(o, hits, gs, b) == ExpectedBy(o, hits, gs, a)
    decreases b
  {
    hide InGroups, Separate;
    if a < b {
      Gap(o, hits, gs, k, a, b - 1);
      Between(gs, k, b);
    }
  }

  /** Inside group `k`, up to line `n`. */
  lemma {:induction false} Inside(o: Options, hits: seq<nat>, gs: seq<Group>, k: nat, n: nat)
    requires Separate(gs) && k < |gs| && gs[k].lo <= n <= gs[k].hi
    ensures var before := ExpectedBy(o, hits, gs, gs[k].lo - 1);
      ExpectedBy(o, hits, gs, n)
      == before + (if ContextOn(o) && before != [] then [Separator] else []) + PrintLines(hits, gs[k].lo, n + 1)
    decreases n
  {
    assert In(n, gs[k]) && InGroups(gs, n);
    if n == gs[k].lo {
      Between(gs, k, n - 1);
      assert PrintLines(hits, n, n) == [];
    } else {
      assert In(n - 1, gs[k]) && InGroups(gs, n - 1);
      Inside(o, hits, gs, k, n - 1);
    }
    hide InGroups;
  }

  lemma NothingBefore(o: Options, hits: seq<nat>, gs: seq<Group>)
    ensures ExpectedBy(o, hits, gs, 0) == []
  {
  }

  lemma SomeLines(hits: seq<nat>, lo: nat, hi: nat)
    requires lo < hi
    ensures PrintLines(hits, lo, hi) != []
  {
  }

  lemma {:induction false} AfterGroups(o: Options, hits: seq<nat>, gs: seq<Group>, k: nat)
    requires Separate(gs) && k <= |gs|
    ensures ExpectedBy(o, hits, gs, if k == 0 then 0 else gs[k - 1].hi) == Printing(o, hits, gs[..k])
    ensures k > 0 ==> Printing(o, hits, gs[..k]) != []
    decreases k
  {
    hide ExpectedBy, PrintLines, InGroups;
    if k == 0 {
      NothingBefore(o, hits, gs);
    } else {
      var g := gs[k - 1];
      var end := if k == 1 then 0 else gs[k - 2].hi;
      AfterGroups(o, hits, gs, k - 1);
      Gap(o, hits, gs, k - 1, end, g.lo - 1);
      Inside(o, hits, gs, k - 1, g.hi);
      assert gs[..k][..k - 1] == gs[..k - 1];
      SomeLines(hits, g.lo, g.hi + 1);
    }
  }

  lemma {:induction false} GroupsEnd(o: Options, lines: nat, hits: seq<nat>)
    requires HitsOk(hits, lines)
    ensures forall i :: 0 <= i < |Groups(o, lines, hits)| ==> Groups(o, lines, hits)[i].hi <= lines
    decreases |hits|
  {
    if hits != [] {
      GroupsEnd(o, lines, hits[..|hits| - 1]);
    }
  }

  lemma PrintingIsExpected(o: Options, lines: nat, hits: seq<nat>)
    requires HitsOk(hits, lines)
    ensures Printing(o, hits, Groups(o, lines, hits)) == Expected(o, lines, hits, lines)
  {
    hide Groups, ExpectedBy, Expected, Printing;
    var gs := Groups(o, lines, hits);
    GroupsAreTheWindows(o, lines, hits, lines);
    GroupsEnd(o, lines, hits);
    ExpectedByGroups(o, lines, hits, lines);
    AfterGroups(o, hits, gs, |gs|);
    assert gs[..|gs|] == gs;
    Gap(o, hits, gs, |gs|, if gs == [] then 0 else gs[|gs| - 1].hi, lines);
  }

  // ---------------------------------------------------------------------------------------
  // What a reader of the output can rely on
  // ---------------------------------------------------------------------------------------

  function Count(out: seq<Printed>, p: Printed): nat { multiset(out)[p] }

  /** Each line near a hit is printed exactly once, a hit as a hit, and no other line is. */
  lemma {:induction false} PrintedOnce(o: Options, lines: nat, hits: seq<nat>, n: nat, line: nat)
    requires HitsOk(hits, lines)
    ensures var out := Expected(o, lines, hits, n);
      && Count(out, PrintLine(hits, line)) == (if 1 <= line <= n && InWindows(o, lines, hits, line) then 1 else 0)
      && Count(out, if line in hits then ContextLine(line) else HitLine(line)) == 0
    decreases n
  {
    hide InWindows, HitsOk;
    if n > 0 {
      PrintedOnce(o, lines, hits, n - 1, line);
    }
  }

  /** A hit is in its own window, so it is printed. */
  lemma HitsArePrinted(o: Options, lines: nat, hits: seq<nat>, hit: nat)
    requires HitsOk(hits, lines) && hit in hits
    ensures Count(Expected(o, lines, hits, lines), HitLine(hit)) == 1
  {
    var i :| 0 <= i < |hits| && hits[i] == hit;
    assert In(hit, Window(o, lines, hits[i]));
    PrintedOnce(o, lines, hits, lines, hit);
    hide Expected, Count;
  }

  /** The number of the line an entry prints. */
  function LineOf(p: Printed): nat
    requires !p.Separator?
  {
    match p case HitLine(line) => line case ContextLine(line) => line
  }

  /** Lines in increasing order, none after line `n`. */
  predicate InOrder(out: seq<Printed>, n: nat) {
    && (forall i :: 0 <= i < |out| && !out[i].Separator? ==> 1 <= LineOf(out[i]) <= n)
    && (forall i, j :: 0 <= i < j < |out| && !out[i].Separator? && !out[j].Separator? ==>
          LineOf(out[i]) < LineOf(out[j]))
  }

  lemma OrderStep(out: seq<Printed>, n: nat, sep: bool, p: Printed)
    requires InOrder(out, n) && !p.Separator? && LineOf(p) == n + 1
    ensures InOrder(out + (if sep then [Separator] else []) + [p], n + 1)
  {
    var r := out + (if sep then [Separator] else []) + [p];
    forall i | 0 <= i < |r| && !r[i].Separator?
      ensures 1 <= LineOf(r[i]) <= n + 1 && (i < |r| - 1 ==> LineOf(r[i]) <= n)
    {
      if i < |out| {
        assert r[i] == out[i];
      }
    }
    forall i, j | 0 <= i < j < |r| && !r[i].Separator? && !r[j].Separator? ensures LineOf(r[i]) < LineOf(r[j]) {
      if j < |out| {
        assert r[i] == out[i] && r[j] == out[j];
      }
    }
  }

  /** Lines come out in increasing order. */
  lemma {:induction false} PrintedInOrder(o: Options, lines: nat, hits: seq<nat>, n: nat)
    requires HitsOk(hits, lines)
    ensures InOrder(Expected(o, lines, hits, n), n)
    decreases n
  {
    hide InWindows, HitsOk, InOrder;
    if n == 0 {
      OrderOfNone();
    } else {
      PrintedInOrder(o, lines, hits, n - 1);
      var before := Expected(o, lines, hits, n - 1);
      OrderWeakens(before, n - 1);
      OrderStep(before, n - 1, ContextOn(o) && before != [] && !InWindows(o, lines, hits, n - 1), PrintLine(hits, n));
    }
  }

  lemma OrderOfNone()
    ensures InOrder([], 0)
  {
  }

  lemma OrderWeakens(out: seq<Printed>, n: nat)
    requires InOrder(out, n)
    ensures InOrder(out, n + 1)
  {
  }

  /** A separator stands between two printed lines exactly when they are not neighbours. */
  predicate GapsMarked(out: seq<Printed>) {
    && (forall i :: 0 < i < |out| - 1 && out[i].Separator? ==>
          !out[i - 1].Separator? && !out[i + 1].Separator? && LineOf(out[i - 1]) + 1 < LineOf(out[i + 1]))
    && (forall i :: 0 < i < |out| && !out[i - 1].Separator? && !out[i].Separator? ==>
          LineOf(out[i - 1]) + 1 == LineOf(out[i]))
  }

  /** Output starts and ends with a line; gaps are marked if context is on, else nothing is. */
  predicate Marked(out: seq<Printed>, on: bool) {
    && (out != [] ==> !out[0].Separator? && !out[|out| - 1].Separator?)
    && (if on then GapsMarked(out) else forall i :: 0 <= i < |out| ==> !out[i].Separator?)
  }

  lemma MarkedStep(out: seq<Printed>, on: bool, gap: bool, p: Printed)
    requires Marked(out, on) && !p.Separator?
    requires out != [] ==>
        if gap then LineOf(out[|out| - 1]) + 1 < LineOf(p) else LineOf(out[|out| - 1]) + 1 == LineOf(p)
    ensures Marked(out + (if on && out != [] && gap then [Separator] else []) + [p], on)
  {
    var r := out + (if on && out != [] && gap then [Separator] else []) + [p];
    assert forall i :: 0 <= i < |out| ==> r[i] == out[i];
    if on {
      GapsStep(out, r, p);
    }
  }

  lemma GapsStep(out: seq<Printed>, r: seq<Printed>, p: Printed)
    requires GapsMarked(out) && !p.Separator? && (out != [] ==> !out[|out| - 1].Separator?)
    requires |r| == |out| + 1 || (out != [] && |r| == |out| + 2 && r[|out|] == Separator)
    requires r[|r| - 1] == p && forall i :: 0 <= i < |out| ==> r[i] == out[i]
    requires out != [] ==>
        if |r| == |out| + 2 then LineOf(out[|out| - 1]) + 1 < LineOf(p) else LineOf(out[|out| - 1]) + 1 == LineOf(p)
    ensures GapsMarked(r)
  {
    hide LineOf;
    forall i | 0 < i < |r| - 1 && r[i].Separator?
      ensures !r[i - 1].Separator? && !r[i + 1].Separator? && LineOf(r[i - 1]) + 1 < LineOf(r[i + 1])
    {
      if i < |out| - 1 {
        assert out[i].Separator? && r[i + 1] == out[i + 1] && r[i - 1] == out[i - 1];
      } else {
        assert i == |out| && r[i - 1] == out[|out| - 1] && r[i + 1] == p;
      }
    }
    forall i | 0 < i < |r| && !r[i - 1].Separator? && !r[i].Separator?
      ensures LineOf(r[i - 1]) + 1 == LineOf(r[i])
    {
      if i < |out| {
        assert r[i] == out[i] && r[i - 1] == out[i - 1];
      } else {
        assert i == |out| && r[i - 1] == out[|out| - 1] && r[i] == p;
      }
    }
  }

  /** The last line printed is the latest one wanted. */
  predicate EndsAt(out: seq<Printed>, n: nat, wanted: bool)
    requires Marked(out, true) || Marked(out, false)
  {
    if wanted then out != [] && LineOf(out[|out| - 1]) == n
    else out != [] ==> LineOf(out[|out| - 1]) < n
  }

  /** Separators stand exactly between the runs of printed lines, and only when context is on. */
  lemma {:induction false} SeparatorsMarkGaps(o: Options, lines: nat, hits: seq<nat>, n: nat)
    requires HitsOk(hits, lines)
    ensures Marked(Expected(o, lines, hits, n), ContextOn(o))
    ensures EndsAt(Expected(o, lines, hits, n), n, InWindows(o, lines, hits, n))
    decreases n
  {
    hide ContextOn;
    if n > 0 {
      SeparatorsMarkGaps(o, lines, hits, n - 1);
      hide InWindows, HitsOk, GapsMarked;
      var before := Expected(o, lines, hits, n - 1);
      if InWindows(o, lines, hits, n) {
        MarkedStep(before, ContextOn(o), !InWindows(o, lines, hits, n - 1), PrintLine(hits, n));
      }
    }
  }

  // ---------------------------------------------------------------------------------------
  // In line numbers
  // ---------------------------------------------------------------------------------------

  /** Some hit is at most `after` lines above and at most `before` lines below the line. */
  predicate NearHit(hits: seq<nat>, before: nat, after: nat, line: nat) {
    exists i :: 0 <= i < |hits| && hits[i] - before <= line <= hits[i] + after
  }

  /** A line is printed, once and as what it is, exactly when it exists and is near a hit. */
  lemma PrintedNearHits(o: Options, lines: nat, hits: seq<nat>, line: nat)
    requires HitsOk(hits, lines)
    ensures var out := Expected(o, lines, hits, lines);
      var wanted := 1 <= line <= lines && NearHit(hits, o.before, o.after, line);
      && Count(out, HitLine(line)) == (if wanted && line in hits then 1 else 0)
      && Count(out, ContextLine(line)) == (if wanted && line !in hits then 1 else 0)
  {
    hide Expected, Count;
    PrintedOnce(o, lines, hits, lines, line);
    if 1 <= line <= lines {
      NearIsWindow(o, lines, hits, line);
    }
  }

  lemma NearIsWindow(o: Options, lines: nat, hits: seq<nat>, line: nat)
    requires HitsOk(hits, lines) && 1 <= line <= lines
    ensures InWindows(o, lines, hits, line) <==> NearHit(hits, o.before, o.after, line)
  {
    if i :| 0 <= i < |hits| && In(line, Window(o, lines, hits[i])) {
      assert hits[i] - o.before <= line <= hits[i] + o.after;
    }
    if i :| 0 <= i < |hits| && hits[i] - o.before <= line <= hits[i] + o.after {
      assert In(line, Window(o, lines, hits[i]));
    }
  }

  /** Gaps are marked exactly when separators are not turned off and some context was asked for. */
  lemma SeparatorsWhenAsked(o: Options, lines: nat, hits: seq<nat>)
    requires HitsOk(hits, lines)
    ensures var out := Expected(o, lines, hits, lines);
      && (!o.noSeparator && (o.before > 0 || o.after > 0) ==> GapsMarked(out))
      && (o.noSeparator || (o.before == 0 && o.after == 0) ==> Separator !in out)
      && (out != [] ==> !out[0].Separator? && !out[|out| - 1].Separator?)
  {
    hide Expected, GapsMarked;
    SeparatorsMarkGaps(o, lines, hits, lines);
  }
}
