/**
  Text made of rows, some of which soft-wrap into the next: how rows are joined, and how a byte
  cap cuts a list of rows into pages.
*/
module PagedText {
  import opened GridRows

  /** The rendered text of one row and whether it soft-wraps into the next. */
  datatype Piece = Piece(text: string, wrapped: bool)

  function Newline(p: Piece): string { if p.wrapped then [] else ['\n'] }

  /** The first `n` rows, with a newline before each row whose predecessor does not wrap. */
  function Join(ps: seq<Piece>, n: nat): string
    requires n <= |ps|
  {
    if n == 0 then []
    else if n == 1 then ps[0].text
    else Join(ps, n - 1) + Newline(ps[n - 2]) + ps[n - 1].text
  }

  /** The first `n` rows, each followed by its newline. */
  function Trail(ps: seq<Piece>, n: nat): string
    requires n <= |ps|
  {
    if n == 0 then [] else Trail(ps, n - 1) + ps[n - 1].text + Newline(ps[n - 1])
  }

  function JoinLen(ps: seq<Piece>, n: nat): nat
    requires n <= |ps|
  {
    if n == 0 then 0
    else if n == 1 then ByteLen(ps[0].text)
    else JoinLen(ps, n - 1) + (if ps[n - 2].wrapped then 0 else 1) + ByteLen(ps[n - 1].text)
  }

  lemma {:induction false} JoinLenIsByteLen(ps: seq<Piece>, n: nat)
    requires n <= |ps|
    ensures ByteLen(Join(ps, n)) == JoinLen(ps, n)
    decreases n
  {
    NewlineBytes();
    if n > 1 {
      JoinLenIsByteLen(ps, n - 1);
      ByteLenConcat(Join(ps, n - 1), Newline(ps[n - 2]));
      ByteLenConcat(Join(ps, n - 1) + Newline(ps[n - 2]), ps[n - 1].text);
    }
  }

  lemma RowAppended(ps: seq<Piece>, n: nat)
    requires n < |ps|
    ensures n == 0 ==> Join(ps, 0) == [] && Join(ps, 1) == Join(ps, 0) + ps[0].text
    ensures n > 0 && ps[n - 1].wrapped ==> Join(ps, n + 1) == Join(ps, n) + ps[n].text
    ensures n > 0 && !ps[n - 1].wrapped ==> Join(ps, n + 1) == Join(ps, n) + ['\n'] + ps[n].text
  {
    assert Join(ps, n) + [] == Join(ps, n);
  }

  /** Newlines after rows and newlines before rows make the same text. */
  lemma {:induction false} TrailIsJoin(ps: seq<Piece>, n: nat)
    requires 0 < n <= |ps|
    ensures Trail(ps, n - 1) + ps[n - 1].text == Join(ps, n)
    decreases n
  {
    if n == 1 {
      assert [] + ps[0].text == ps[0].text;
    } else {
      TrailIsJoin(ps, n - 1);
    }
  }

  lemma {:induction false} JoinPrefix(ps: seq<Piece>, qs: seq<Piece>, n: nat)
    requires n <= |ps| && n <= |qs| && forall i :: 0 <= i < n ==> ps[i] == qs[i]
    ensures Join(ps, n) == Join(qs, n)
    decreases n
  {
    if n > 1 {
      JoinPrefix(ps, qs, n - 1);
    }
  }

  lemma {:induction false} JoinSplit(ps: seq<Piece>, m: nat, n: nat)
    requires 0 < m < n <= |ps|
    ensures Join(ps, n) == Join(ps, m) + Newline(ps[m - 1]) + Join(ps[m..], n - m)
    decreases n
  {
    if n > m + 1 {
      JoinSplit(ps, m, n - 1);
      var left, right := Join(ps, m) + Newline(ps[m - 1]), Join(ps[m..], n - 1 - m);
      assert ps[m..][n - 1 - m] == ps[n - 1] && ps[m..][n - 2 - m] == ps[n - 2];
      Assoc(left, right, Newline(ps[n - 2]));
      Assoc(left, right + Newline(ps[n - 2]), ps[n - 1].text);
    }
  }

  // ---------------------------------------------------------------------------------------
  // Cutting into pages
  // ---------------------------------------------------------------------------------------

  /** How many rows fit under the cap, given that `n` are in already. */
  function Fit(ps: seq<Piece>, n: nat, cap: nat): (r: nat)
    requires n <= |ps|
    ensures n <= r <= |ps|
    decreases |ps| - n
  {
    if n == |ps| || JoinLen(ps, n + 1) > cap then n else Fit(ps, n + 1, cap)
  }

  /** Whether one more row fits, as a reader that measures the text so far decides it. */
  lemma FitStep(ps: seq<Piece>, n: nat, cap: nat)
    requires 0 < n < |ps|
    ensures var sep := if ps[n - 1].wrapped then 0 else 1;
      Fit(ps, n, cap) == if ByteLen(Join(ps, n)) + sep + ByteLen(ps[n].text) > cap then n else Fit(ps, n + 1, cap)
  {
    hide ByteLen, Join;
    JoinLenIsByteLen(ps, n);
  }

  lemma FitAll(ps: seq<Piece>, cap: nat)
    ensures Fit(ps, |ps|, cap) == |ps|
  {
  }

  lemma {:induction false} JoinLenRises(ps: seq<Piece>, m: nat, n: nat)
    requires m <= n <= |ps|
    ensures JoinLen(ps, m) <= JoinLen(ps, n)
    decreases n
  {
    if m < n {
      JoinLenRises(ps, m, n - 1);
    }
  }

  /** The fit is the longest run of rows within the cap, or the first row alone. */
  lemma {:induction false} FitIsGreedy(ps: seq<Piece>, n: nat, cap: nat)
    requires 0 < n <= |ps| && (n == 1 || JoinLen(ps, n) <= cap)
    ensures var r := Fit(ps, n, cap);
      && (r == 1 || JoinLen(ps, r) <= cap)
      && (forall k :: r < k <= |ps| ==> JoinLen(ps, k) > cap)
    decreases |ps| - n
  {
    if n == |ps| {
    } else if JoinLen(ps, n + 1) > cap {
      forall k | n < k <= |ps| ensures JoinLen(ps, k) > cap {
        JoinLenRises(ps, n + 1, k);
      }
    } else {
      FitIsGreedy(ps, n + 1, cap);
    }
  }

  /** The rows cut into pages, page `i` under the cap `caps(i)`. */
  function Cut(ps: seq<Piece>, caps: nat -> nat, i: nat): (pages: seq<seq<Piece>>)
    requires ps != []
    ensures forall k :: 0 <= k < |pages| ==> pages[k] != []
    decreases |ps|
  {
    var n := Fit(ps, 1, caps(i));
    if n == |ps| then [ps] else [ps[..n]] + Cut(ps[n..], caps, i + 1)
  }

  lemma CutUnfold(ps: seq<Piece>, caps: nat -> nat, i: nat)
    requires ps != []
    ensures var n := Fit(ps, 1, caps(i));
      Cut(ps, caps, i) == if n < |ps| then [ps[..n]] + Cut(ps[n..], caps, i + 1) else [ps]
  {
    hide Fit;
  }

  function Whole(ps: seq<Piece>): string { Join(ps, |ps|) }

  /** Pages joined with a newline wherever the last row of a page does not wrap into the next. */
  function JoinPages(pages: seq<seq<Piece>>): string
    requires forall k :: 0 <= k < |pages| ==> pages[k] != []
  {
    if pages == [] then []
    else if |pages| == 1 then Whole(pages[0])
    else Whole(pages[0]) + Newline(pages[0][|pages[0]| - 1]) + JoinPages(pages[1..])
  }

  function Flatten(pages: seq<seq<Piece>>): seq<Piece> {
    if pages == [] then [] else pages[0] + Flatten(pages[1..])
  }

  /** Cutting loses and repeats no row, and the pages joined are the text of all rows. */
  lemma {:induction false} CutLosesNothing(ps: seq<Piece>, caps: nat -> nat, i: nat)
    requires ps != []
    ensures Flatten(Cut(ps, caps, i)) == ps
    ensures JoinPages(Cut(ps, caps, i)) == Whole(ps)
    decreases |ps|
  {
    var n, pages := Fit(ps, 1, caps(i)), Cut(ps, caps, i);
    if n == |ps| {
      assert pages[1..] == [];
      assert ps + [] == ps;
    } else {
      CutLosesNothing(ps[n..], caps, i + 1);
      assert pages[1..] == Cut(ps[n..], caps, i + 1);
      assert ps[..n] + ps[n..] == ps;
      JoinPrefix(ps, ps[..n], n);
      JoinSplit(ps, n, |ps|);
    }
  }

  // ---------------------------------------------------------------------------------------
  // A text seen from one of its rows
  // ---------------------------------------------------------------------------------------

  function Head(ps: seq<Piece>, m: nat): string
    requires m < |ps|
  {
    if m == 0 then [] else Join(ps, m) + Newline(ps[m - 1])
  }

  function Tail(ps: seq<Piece>, m: nat): string
    requires m < |ps|
  {
    if m + 1 == |ps| then [] else Newline(ps[m]) + Whole(ps[m + 1..])
  }

  lemma UpToRow(ps: seq<Piece>, m: nat)
    requires m < |ps|
    ensures Join(ps, m + 1) == Head(ps, m) + ps[m].text
  {
    if m == 0 {
      assert [] + ps[0].text == ps[0].text;
    }
  }

  lemma AroundRow(ps: seq<Piece>, m: nat)
    requires m < |ps|
    ensures Whole(ps) == Head(ps, m) + ps[m].text + Tail(ps, m)
  {
    hide *;
    UpToRow(ps, m);
    FromRow(ps, m);
    if m + 1 < |ps| {
      JoinSplit(ps, m + 1, |ps|);
      Assoc(Join(ps, m + 1), Newline(ps[m]), Join(ps[m + 1..], |ps| - m - 1));
    } else {
      NothingAdded(Join(ps, m + 1));
    }
  }

  lemma FromRow(ps: seq<Piece>, m: nat)
    requires m < |ps|
    ensures Whole(ps) == Join(ps, |ps|)
    ensures Tail(ps, m) == if m + 1 == |ps| then [] else Newline(ps[m]) + Join(ps[m + 1..], |ps| - m - 1)
  {
    hide Join, Newline;
  }

  lemma NothingAdded(s: string)
    ensures s + [] == s
  {
  }

  /** Splitting one row's text in two splits the whole text in two, and only then. */
  lemma SplitInRow(head: string, tail: string, first: string, second: string, whole: string)
    ensures (head + first + []) + ([] + second + tail) == head + whole + tail <==> first + second == whole
  {
    var x := first + second;
    assert (head + first + []) + ([] + second + tail) == head + x + tail;
    if head + x + tail == head + whole + tail {
      assert x == (head + x + tail)[|head|..|head| + |x|];
      assert whole == (head + whole + tail)[|head|..|head| + |whole|];
    }
  }
}
