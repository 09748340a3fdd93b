/** Searching the whole buffer in copy mode (`copy_mode.rs`). */
module Search {
  import opened Text
  import opened Terminal
  import opened Motions

  // ----- reading the buffer -----

  function Each<A, B>(f: A -> B, xs: seq<A>): (r: seq<B>)
    ensures |r| == |xs| && forall i :: 0 <= i < |xs| ==> r[i] == f(xs[i])
  {
    seq(|xs|, i requires 0 <= i < |xs| => f(xs[i]))
  }

  /** `read_all_lines`: overlapping screenfuls from the top of the history down;
      the window is put back. */
  method ReadAllLines(term: Screen, text: Row -> string) returns (lines: seq<string>)
    requires term.Valid()
    modifies term
    ensures term.Valid() && term.offset == old(term.offset)
    ensures lines == Each(text, term.Lines())
  {
    var h, rows, saved := |term.history|, term.Rows(), term.offset;
    var total := h + rows;
    lines := seq(total, _ => "");
    var sb: nat := h;
    ghost var all := Each(text, term.Lines());
    while true
      invariant term.Valid() && |lines| == total && sb <= h
      invariant forall i :: 0 <= i < h - sb ==> lines[i] == all[i]
      decreases sb
    {
      term.SetScrollback(sb);
      var actual := term.offset;
      var top := h - actual;
      for r := 0 to rows
        invariant term.Valid() && term.offset == actual && |lines| == total
        invariant forall i :: 0 <= i < top + r ==> lines[i] == all[i]
      {
        term.VisibleRowIsLine(r);
        if top + r < total { lines := lines[top + r := text(term.VisibleRow(r))]; }
      }
      if actual == 0 { break; }
      sb := SatSub(actual, rows);
    }
    term.SetScrollback(saved);
  }

  // ----- matches -----

  /** A match: its line, its first column and the column after it. */
  datatype Match = Match(line: nat, col: nat, end: nat)

  predicate OccursAt(s: string, q: string, p: nat) { p + |q| <= |s| && s[p..p + |q|] == q }

  /** The first occurrence at or after `p`, or the length. */
  function FindFrom(s: string, q: string, p: nat): (r: nat)
    requires q != ""
    ensures r == |s| || (p <= r < |s| && OccursAt(s, q, r))
    decreases |s| - p
  {
    if p >= |s| then |s| else if OccursAt(s, q, p) then p else FindFrom(s, q, p + 1)
  }

  /** The matches of a line from column `p` on; they may overlap. */
  function LineMatches(s: string, q: string, line: nat, p: nat): seq<Match>
    requires q != ""
    decreases |s| - p
  {
    if p >= |s| then []
    else (if OccursAt(s, q, p) then [Match(line, p, p + |q|)] else []) + LineMatches(s, q, line, p + 1)
  }

  lemma {:induction false} SkipToNext(s: string, q: string, line: nat, p: nat)
    requires q != ""
    ensures LineMatches(s, q, line, p) == LineMatches(s, q, line, FindFrom(s, q, p))
    decreases |s| - p
  {
    hide OccursAt;
    if p < |s| && !OccursAt(s, q, p) { SkipToNext(s, q, line, p + 1); }
  }

  function AllMatches(lines: seq<string>, q: string): seq<Match>
    requires q != ""
  {
    if lines == [] then []
    else
      var last := |lines| - 1;
      AllMatches(lines[..last], q) + LineMatches(lines[last], q, last, 0)
  }

  lemma MatchesFromHere(s: string, q: string, line: nat, p: nat)
    requires q != "" && (p < |s| ==> OccursAt(s, q, p))
    ensures p < |s| ==> LineMatches(s, q, line, p) == [Match(line, p, p + |q|)] + LineMatches(s, q, line, p + 1)
    ensures p >= |s| ==> LineMatches(s, q, line, p) == []
  {
    hide OccursAt;
  }

  /** The ascending scan of `search_copy_mode`, over lines whose case has been
      folded already. */
  method Ascending(lines: seq<string>, q: string) returns (found: seq<Match>)
    requires q != ""
    ensures found == AllMatches(lines, q)
  {
    hide OccursAt, FindFrom, LineMatches;
    found := [];
    for i := 0 to |lines|
      invariant found == AllMatches(lines[..i], q)
    {
      ghost var before := found;
      var s := lines[i];
      var start: nat := 0;
      SkipToNext(s, q, i, start);
      var pos := FindFrom(s, q, start);
      while pos < |s|
        invariant pos == |s| || (pos < |s| && OccursAt(s, q, pos))
        invariant before + LineMatches(s, q, i, 0) == found + LineMatches(s, q, i, pos)
        decreases |s| - pos
      {
        MatchesFromHere(s, q, i, pos);
        Associate(found, [Match(i, pos, pos + |q|)], LineMatches(s, q, i, pos + 1));
        found := found + [Match(i, pos, pos + |q|)];
        start := pos + 1;
        SkipToNext(s, q, i, start);
        if start >= |s| {
          pos := |s|;
          break;
        }
        pos := FindFrom(s, q, start);
      }
      assert lines[..i + 1][..i] == lines[..i];
      MatchesFromHere(s, q, i, |s|);
      assert found + [] == found;
    }
    assert lines[..|lines|] == lines;
  }

  predicate Precedes(a: Match, b: Match) { a.line < b.line || (a.line == b.line && a.col < b.col) }

  ghost predicate Sorted(ms: seq<Match>) { forall i, j :: 0 <= i < j < |ms| ==> Precedes(ms[i], ms[j]) }

  lemma {:induction false} LineMatchesAre(s: string, q: string, line: nat, p: nat)
    requires q != ""
    ensures Sorted(LineMatches(s, q, line, p))
    ensures forall m :: m in LineMatches(s, q, line, p) <==>
              m.line == line && p <= m.col && m.end == m.col + |q| && OccursAt(s, q, m.col)
    decreases |s| - p
  {
    if p < |s| {
      LineMatchesAre(s, q, line, p + 1);
      hide OccursAt, Sorted;
      var rest := LineMatches(s, q, line, p + 1);
      if OccursAt(s, q, p) {
        SortedPrepend(Match(line, p, p + |q|), rest);
      } else {
        assert LineMatches(s, q, line, p) == rest;
      }
    }
  }

  lemma SortedPrepend(m: Match, rest: seq<Match>)
    requires Sorted(rest) && forall r <- rest :: Precedes(m, r)
    ensures Sorted([m] + rest)
  {
    var all := [m] + rest;
    forall i, j | 0 <= i < j < |all| ensures Precedes(all[i], all[j]) {
      assert all[j] == rest[j - 1] && rest[j - 1] in rest;
      if i > 0 { assert Precedes(rest[i - 1], rest[j - 1]); }
    }
  }

  /** The scan finds every occurrence of the query, each once, in buffer order. */
  lemma {:induction false} AllMatchesAre(lines: seq<string>, q: string)
    requires q != ""
    ensures Sorted(AllMatches(lines, q))
    ensures forall m :: m in AllMatches(lines, q) <==>
              m.line < |lines| && m.end == m.col + |q| && OccursAt(lines[m.line], q, m.col)
  {
    if lines != [] {
      var last := |lines| - 1;
      AllMatchesAre(lines[..last], q);
      LineMatchesAre(lines[last], q, last, 0);
      hide OccursAt;
      SortedConcat(AllMatches(lines[..last], q), LineMatches(lines[last], q, last, 0), last);
      assert forall k :: 0 <= k < last ==> lines[..last][k] == lines[k];
    }
  }

  lemma SortedConcat(a: seq<Match>, b: seq<Match>, line: nat)
    requires Sorted(a) && Sorted(b)
    requires (forall m <- a :: m.line < line) && (forall m <- b :: m.line == line)
    ensures Sorted(a + b)
  {
    var all := a + b;
    forall i, j | 0 <= i < j < |all| ensures Precedes(all[i], all[j]) {
      if j < |a| {
        assert Precedes(a[i], a[j]);
      } else if i >= |a| {
        assert Precedes(b[i - |a|], b[j - |a|]);
      } else {
        assert all[i] == a[i] && a[i] in a && all[j] == b[j - |a|] && b[j - |a|] in b;
      }
    }
  }

  // ----- the order of the match list -----

  function Reverse(ms: seq<Match>): (r: seq<Match>)
    ensures |r| == |ms| && forall i :: 0 <= i < |ms| ==> r[i] == ms[|ms| - 1 - i]
  {
    if ms == [] then [] else Reverse(ms[1..]) + [ms[0]]
  }

  /** How many of a sorted list come at or before the cursor, or strictly before. */
  function CountNotAfter(ms: seq<Match>, cursor: Match): (n: nat)
    ensures n <= |ms|
  {
    if ms == [] || Precedes(cursor, ms[0]) then 0 else 1 + CountNotAfter(ms[1..], cursor)
  }

  function CountBefore(ms: seq<Match>, cursor: Match): (n: nat)
    ensures n <= |ms|
  {
    if ms == [] then 0 else (if Precedes(ms[0], cursor) then 1 else 0) + CountBefore(ms[1..], cursor)
  }

  function Rotated(ms: seq<Match>, k: nat): seq<Match>
    requires k <= |ms|
  {
    ms[k..] + ms[..k]
  }

  /** The list `search_copy_mode` leaves: matches in scan order, from the cursor on. */
  function Ordered(ms: seq<Match>, cursor: Match, forward: bool): seq<Match> {
    if forward then Rotated(ms, CountNotAfter(ms, cursor))
    else Rotated(Reverse(ms), |ms| - CountBefore(ms, cursor))
  }

  lemma {:induction false} NotAfterSplits(ms: seq<Match>, cursor: Match)
    requires Sorted(ms)
    ensures var n := CountNotAfter(ms, cursor);
            && (forall i :: 0 <= i < n ==> !Precedes(cursor, ms[i]))
            && (forall i :: n <= i < |ms| ==> Precedes(cursor, ms[i]))
  {
    if ms != [] {
      if Precedes(cursor, ms[0]) {
        forall i | 0 <= i < |ms| ensures Precedes(cursor, ms[i]) {
          if i > 0 { assert Precedes(ms[0], ms[i]); }
        }
      } else {
        NotAfterSplits(ms[1..], cursor);
        forall i | 1 <= i < |ms| ensures ms[i] == ms[1..][i - 1] {}
      }
    }
  }

  lemma {:induction false} BeforeSplits(ms: seq<Match>, cursor: Match)
    requires Sorted(ms)
    ensures var n := CountBefore(ms, cursor);
            && (forall i :: 0 <= i < n ==> Precedes(ms[i], cursor))
            && (forall i :: n <= i < |ms| ==> !Precedes(ms[i], cursor))
  {
    if ms != [] {
      BeforeSplits(ms[1..], cursor);
      forall i | 1 <= i < |ms| ensures ms[i] == ms[1..][i - 1] && Precedes(ms[0], ms[i]) {}
      if !Precedes(ms[0], cursor) {
        NoneBefore(ms[1..], cursor);
      }
    }
  }

  lemma {:induction false} NoneBefore(ms: seq<Match>, cursor: Match)
    requires forall i :: 0 <= i < |ms| ==> !Precedes(ms[i], cursor)
    ensures CountBefore(ms, cursor) == 0
  {
    if ms != [] { NoneBefore(ms[1..], cursor); }
  }

  /** Forward: the list is a rotation of the matches in buffer order, and its head
      is the first match strictly after the cursor, or the very first when there
      is none. */
  lemma ForwardOrder(ms: seq<Match>, cursor: Match)
    requires Sorted(ms) && ms != []
    ensures var list := Ordered(ms, cursor, true); var n := CountNotAfter(ms, cursor);
            && list == Rotated(ms, n) && |list| == |ms|
            && (forall m <- ms :: Precedes(cursor, m) ==>
                  Precedes(cursor, list[0]) && (list[0] == m || Precedes(list[0], m)))
            && ((forall m <- ms :: !Precedes(cursor, m)) ==> list[0] == ms[0])
    ensures forall m: Match ::
              Precedes(cursor, m) <==> m.line > cursor.line || (m.line == cursor.line && m.col > cursor.col)
  {
    var n := CountNotAfter(ms, cursor);
    NotAfterSplits(ms, cursor);
    forall m | m in ms && Precedes(cursor, m)
      ensures n < |ms| && (ms[n] == m || Precedes(ms[n], m))
    {
      var i :| 0 <= i < |ms| && ms[i] == m;
      assert n <= i;
      if n < i { assert Precedes(ms[n], ms[i]); }
    }
    if n < |ms| { assert ms[n] in ms; }
  }

  /** Backward: a rotation of the matches from last to first, headed by the last
      match strictly before the cursor, or the very last when there is none. */
  lemma BackwardOrder(ms: seq<Match>, cursor: Match)
    requires Sorted(ms) && ms != []
    ensures var list := Ordered(ms, cursor, false); var n := CountBefore(ms, cursor);
            && list == Rotated(Reverse(ms), |ms| - n) && |list| == |ms|
            && (forall m <- ms :: Precedes(m, cursor) ==>
                  Precedes(list[0], cursor) && (list[0] == m || Precedes(m, list[0])))
            && ((forall m <- ms :: !Precedes(m, cursor)) ==> list[0] == ms[|ms| - 1])
    ensures forall m: Match ::
              Precedes(m, cursor) <==> m.line < cursor.line || (m.line == cursor.line && m.col < cursor.col)
  {
    var n := CountBefore(ms, cursor);
    BeforeSplits(ms, cursor);
    forall m | m in ms && Precedes(m, cursor)
      ensures n > 0 && (ms[n - 1] == m || Precedes(m, ms[n - 1]))
    {
      var i :| 0 <= i < |ms| && ms[i] == m;
      assert i < n;
      if i < n - 1 { assert Precedes(ms[i], ms[n - 1]); }
    }
    if n > 0 { assert ms[n - 1] in ms; }
  }

  // ----- n and N -----

  /** `search_next` and `search_prev` on the index. */
  function NextIndex(i: nat, len: nat, wrap: bool): nat {
    if i + 1 >= len then (if wrap then 0 else i) else i + 1
  }

  function PrevIndex(i: nat, len: nat, wrap: bool): nat
    requires len > 0
  {
    if i == 0 then (if wrap then len - 1 else i) else i - 1
  }

  function NextTimes(i: nat, len: nat, k: nat): nat
    decreases k
  {
    if k == 0 then i else NextTimes(NextIndex(i, len, true), len, k - 1)
  }

  lemma {:induction false} NextTimesIs(i: nat, len: nat, k: nat)
    requires i < len && k <= len
    ensures NextTimes(i, len, k) == if i + k < len then i + k else i + k - len
    decreases k
  {
    if k > 0 { NextTimesIs(NextIndex(i, len, true), len, k - 1); }
  }

  /** With wrapping on, pressing `n` once for every match comes back to the start
      and visits every match exactly once on the way. */
  lemma CycleVisitsAll(i: nat, len: nat, target: nat)
    requires i < len && target < len
    ensures NextTimes(i, len, len) == i
    ensures exists k :: 0 <= k < len && NextTimes(i, len, k) == target &&
              (forall j :: 0 <= j < len && NextTimes(i, len, j) == target ==> j == k)
  {
    NextTimesIs(i, len, len);
    var k := if target >= i then target - i else target + len - i;
    NextTimesIs(i, len, k);
    forall j | 0 <= j < len && NextTimes(i, len, j) == target ensures j == k {
      NextTimesIs(i, len, j);
    }
  }

  /** `N` undoes `n` exactly when wrapping is on or `n` was not at the last match. */
  lemma PrevUndoesNext(i: nat, len: nat, wrap: bool)
    requires i < len
    ensures PrevIndex(NextIndex(i, len, wrap), len, wrap) == i <==> wrap || i + 1 < len || i == 0
  {}

  // ----- bringing a match on screen -----

  /** Whether a line is on screen at a given offset. */
  predicate OnScreen(history: nat, rows: nat, offset: nat, line: nat) {
    offset <= history && history - offset <= line < history - offset + rows
  }

  /** The offset `scroll_to_abs_line` asks for, and the row it puts the cursor on. */
  function ScrollTarget(history: nat, rows: nat, offset: nat, line: nat): (nat, nat)
    requires offset <= history && rows > 0
  {
    if OnScreen(history, rows, offset, line) then (offset, line - (history - offset))
    else
      var gap := rows / 4;
      var top := if line < rows then 0
                 else if line + gap > history + rows then history
                 else SatSub(line + gap, rows);
      (history - Min(top, history), SatSub(line, top))
  }

  /** `scroll_to_abs_line`: where the cursor lands, exactly. A line already on
      screen does not move the window; below four rows the gap is zero and the
      cursor can land one line early. */
  method ScrollToLine(v: CopyView, line: nat, col: nat)
    requires v.Valid() && line <= v.LastLine() && col < v.term.cols
    modifies v`row, v`col, v`scrollOffset, v.term
    ensures v.Valid() && v.col == col && v.mark == old(v.mark)
    ensures var (rows, top) := (v.term.Rows(), |v.term.history| - old(v.term.offset));
            var onScreen := top <= line < top + rows;
            && (onScreen ==> v.term.offset == old(v.term.offset))
            && (v.Line() == line <==> rows >= 4 || line < rows || onScreen)
            && (v.Line() == line || v.Line() == line - 1)
            && (!onScreen && rows >= 4 && rows <= line && line + rows / 4 <= |v.term.history| + rows ==>
                  v.row == rows - rows / 4)
            && (!onScreen && line < rows ==> v.term.offset == |v.term.history| && v.row == line)
            && (!onScreen && rows >= 4 && line >= rows && line + rows / 4 > |v.term.history| + rows ==>
                  v.term.offset == 0)
  {
    var h, rows := |v.term.history|, v.term.Rows();
    var (offset, row) := ScrollTarget(h, rows, v.term.offset, line);
    v.term.SetScrollback(offset);
    v.scrollOffset := v.term.offset;
    v.row, v.col := Min(row, rows - 1), col;
  }

  /** The lines the cursor can be put on: everything from four rows up; below
      that, what is on screen already or fits the first screen of the history. */
  predicate LandsOn(history: nat, rows: nat, offset: nat, line: nat) {
    rows >= 4 || line < rows || OnScreen(history, rows, offset, line)
  }

  /** Three rows, ten lines of history, looking at the bottom: line 5 is asked for
      and the cursor lands on line 4. */
  lemma LandsOneLineEarly()
    ensures var (offset, row) := ScrollTarget(10, 3, 0, 5);
            10 - offset + Min(row, 2) == 4
  {}

  // ----- the commands -----

  class Searcher {
    const view: CopyView
    var matches: seq<Match>
    var index: nat
    var wrap: bool

    constructor (view: CopyView, wrap: bool)
      ensures this.view == view && matches == [] && index == 0 && this.wrap == wrap
    {
      this.view, this.wrap, matches, index := view, wrap, [], 0;
    }

    ghost predicate Valid()
      reads this, view, view.term
    {
      && view.Valid() && (matches != [] ==> index < |matches|)
      && forall m <- matches :: m.line <= view.LastLine() && m.col < view.term.cols
    }

    /** `search_copy_mode`. `fold` maps a character to its lower case, `text` gives
        a row's text. */
    method SearchBuffer(text: Row -> string, fold: string -> string, query: string, forward: bool)
      requires Valid()
      requires fold(query) == "" <==> query == ""
      requires forall row <- view.term.Lines() :: |fold(text(row))| <= view.term.cols
      modifies this`matches, this`index, view`row, view`col, view`scrollOffset, view.term
      ensures Valid() && index == 0
      ensures query == "" ==> matches == []
      ensures query != "" ==>
                matches == Ordered(AllMatches(Each(fold, Each(text, view.term.Lines())), fold(query)),
                                   Match(old(view.Line()), old(view.col), 0), forward)
      ensures matches == [] ==> view.Here() == old(view.Here())
      ensures matches != [] ==>
                view.col == matches[0].col
                && (LandsOn(|view.term.history|, view.term.Rows(), old(view.term.offset), matches[0].line) ==>
                      view.Line() == matches[0].line)
    {
      hide Ordered, AllMatches, Each;
      matches, index := [], 0;
      if query == "" { return; }
      var cursor := Match(|view.term.history| - view.term.offset + view.row, view.col, 0);
      var lines := ReadAllLines(view.term, text);
      var folded := Each(fold, lines);
      var found := Ascending(folded, fold(query));
      FoldedShort(text, fold, view.term.Lines(), view.term.cols);
      MatchesInRange(folded, fold(query), cursor, forward, view.term.cols);
      if found == [] { return; }
      matches := Ordered(found, cursor, forward);
      assert matches[0] in matches;
      ScrollToLine(view, matches[0].line, matches[0].col);
    }

    /** `search_next` and `search_prev`. */
    method Step(forward: bool)
      requires Valid()
      modifies this`index, view`row, view`col, view`scrollOffset, view.term
      ensures Valid()
      ensures matches == [] ==> index == old(index) && view.Here() == old(view.Here())
      ensures matches != [] ==>
                index == if forward then NextIndex(old(index), |matches|, wrap)
                         else PrevIndex(old(index), |matches|, wrap)
      ensures matches != [] && (wrap || index != old(index)) ==>
                view.col == matches[index].col
                && (LandsOn(|view.term.history|, view.term.Rows(), old(view.term.offset), matches[index].line) ==>
                      view.Line() == matches[index].line)
    {
      if matches == [] { return; }
      if forward {
        if index + 1 >= |matches| {
          if !wrap { return; }
          index := 0;
        } else {
          index := index + 1;
        }
      } else {
        if index == 0 {
          if !wrap { return; }
          index := |matches| - 1;
        } else {
          index := index - 1;
        }
      }
      ScrollToLine(view, matches[index].line, matches[index].col);
    }
  }

  lemma FoldedShort(text: Row -> string, fold: string -> string, rows: seq<Row>, cols: nat)
    requires forall row <- rows :: |fold(text(row))| <= cols
    ensures var lines := Each(fold, Each(text, rows));
            |lines| == |rows| && forall i :: 0 <= i < |lines| ==> |lines[i]| <= cols
  {}

  lemma MatchesInRange(lines: seq<string>, q: string, cursor: Match, forward: bool, cols: nat)
    requires q != "" && forall i :: 0 <= i < |lines| ==> |lines[i]| <= cols
    ensures var found := AllMatches(lines, q); var list := Ordered(found, cursor, forward);
            && |list| == |found|
            && forall m <- list :: m.line < |lines| && m.col < cols
  {
    hide Ordered, Sorted, OccursAt;
    var found := AllMatches(lines, q);
    AllMatchesAre(lines, q);
    OrderedFrom(found, cursor, forward);
    var list := Ordered(found, cursor, forward);
    forall m | m in list ensures m.line < |lines| && m.col < cols {
      assert m in found && OccursAt(lines[m.line], q, m.col);
      OccursInside(lines[m.line], q, m.col);
    }
  }

  lemma OccursInside(s: string, q: string, p: nat)
    requires q != "" && OccursAt(s, q, p)
    ensures p < |s|
  {}

  lemma OrderedFrom(ms: seq<Match>, cursor: Match, forward: bool)
    ensures var list := Ordered(ms, cursor, forward); |list| == |ms| && forall m <- list :: m in ms
  {
    var r := Reverse(ms);
    forall i | 0 <= i < |r| ensures r[i] in ms {
      assert r[i] == ms[|ms| - 1 - i];
    }
  }
}
